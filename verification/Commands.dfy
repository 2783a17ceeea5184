/** Strings in IMAP commands (src/imap/command.rs): quoted strings and literals, section 4.3 of RFC 3501 and
    section 3 of RFC 7888. Text is bytes here, one character for each byte. */
module Commands {
  import opened Wrappers
  import opened Text

  // ----- quoting

  predicate IsPrintable(c: char) {
    ' ' <= c <= '~'
  }

  predicate NeedsLiteral(s: string) {
    exists i :: 0 <= i < |s| && !IsPrintable(s[i])
  }

  function Escape(s: string): string {
    if s == [] then []
    else if s[0] == '"' || s[0] == '\\' then ['\\', s[0]] + Escape(s[1..])
    else [s[0]] + Escape(s[1..])
  }

  function Quoted(s: string): string {
    ['"'] + Escape(s) + ['"']
  }

  function Literal(s: string): string {
    ['{'] + (Decimal(|s|) + ("+}\r\n" + s))
  }

  function Astring(s: string): string {
    if NeedsLiteral(s) then Literal(s) else Quoted(s)
  }

  lemma {:induction false} EscapeAppend(s: string, c: char)
    ensures Escape(s + [c]) == Escape(s) + (if c == '"' || c == '\\' then ['\\', c] else [c])
  {
    if s == [] {
      assert s + [c] == [c] && Escape([]) == [];
    } else {
      EscapeAppend(s[1..], c);
      assert (s + [c])[1..] == s[1..] + [c];
    }
  }

  /** `quote_astring`. */
  method QuoteAstring(s: string) returns (out: string)
    ensures out == Astring(s)
  {
    var needsLiteral := exists i :: 0 <= i < |s| && !IsPrintable(s[i]);
    if needsLiteral {
      return ['{'] + (Decimal(|s|) + ("+}\r\n" + s));
    }
    out := ['"'];
    for i := 0 to |s|
      invariant out == ['"'] + Escape(s[..i])
    {
      var c := s[i];
      EscapeAppend(s[..i], c);
      assert s[..i + 1] == s[..i] + [c];
      if c == '"' || c == '\\' {
        out := out + ['\\'];
      }
      out := out + [c];
    }
    assert s[..|s|] == s;
    out := out + ['"'];
  }

  /** Text of bytes from 0x20 to 0x7E is sent quoted, and any other text as a literal. */
  lemma FormOfAstring(s: string)
    ensures Astring(s)[0] == '"' <==> forall c :: c in s ==> 0x20 <= c as int <= 0x7E
    ensures Astring(s)[0] == '"' || Astring(s)[0] == '{'
  {
    hide Escape, Decimal;
    if !NeedsLiteral(s) {
      forall c | c in s
        ensures 0x20 <= c as int <= 0x7E
      {
        var i :| 0 <= i < |s| && s[i] == c;
        assert IsPrintable(s[i]);
      }
    } else {
      var i :| 0 <= i < |s| && !IsPrintable(s[i]);
      assert s[i] in s;
    }
  }

  // ----- reading an astring from the front of a command line

  /** Up to the closing quote; a backslash stands before a quote or a backslash, and nowhere else. */
  function ReadQuoted(s: string): Option<(string, string)> {
    if s == [] || s[0] == '\r' || s[0] == '\n' then None
    else if s[0] == '"' then Some(([], s[1..]))
    else if s[0] == '\\' then
      if |s| >= 2 && (s[1] == '"' || s[1] == '\\') then
        var (value, rest) :- ReadQuoted(s[2..]);
        Some(([s[1]] + value, rest))
      else None
    else
      var (value, rest) :- ReadQuoted(s[1..]);
      Some(([s[0]] + value, rest))
  }

  /** After the brace: the length, a plus, the closing brace, a line break and that many bytes. */
  function ReadLiteral(s: string): Option<(string, string)> {
    var n := DigitRun(s);
    if n == 0 || !("+}\r\n" <= s[n..]) then None
    else
      var len := DecimalValue(s[..n]);
      var body := s[n + 4..];
      if len <= |body| then Some((body[..len], body[len..])) else None
  }

  function ReadAstring(s: string): Option<(string, string)> {
    if s == [] then None
    else if s[0] == '"' then ReadQuoted(s[1..])
    else if s[0] == '{' then ReadLiteral(s[1..])
    else None
  }

  lemma {:induction false} ReadEscaped(s: string, rest: string)
    requires !NeedsLiteral(s)
    ensures ReadQuoted(Escape(s) + ['"'] + rest) == Some((s, rest))
  {
    hide ReadQuoted;
    if s == [] {
      assert Escape(s) + ['"'] + rest == ['"'] + rest;
      ReadClosingQuote(rest);
    } else {
      assert IsPrintable(s[0]);
      forall i | 0 <= i < |s[1..]|
        ensures IsPrintable(s[1..][i])
      {
        assert s[1..][i] == s[i + 1];
      }
      ReadEscaped(s[1..], rest);
      var tail := Escape(s[1..]) + ['"'] + rest;
      assert s == [s[0]] + s[1..];
      ReadOneChar(s[0], tail);
      if s[0] == '"' || s[0] == '\\' {
        assert Escape(s) + ['"'] + rest == ['\\', s[0]] + tail;
      } else {
        assert Escape(s) + ['"'] + rest == [s[0]] + tail;
      }
    }
  }

  lemma ReadClosingQuote(rest: string)
    ensures ReadQuoted(['"'] + rest) == Some(([], rest))
  {
    assert (['"'] + rest)[1..] == rest;
  }

  lemma ReadOneChar(c: char, tail: string)
    requires IsPrintable(c) && ReadQuoted(tail).Some?
    ensures
      var (value, rest) := ReadQuoted(tail).value;
      ReadQuoted((if c == '"' || c == '\\' then ['\\', c] else [c]) + tail) == Some(([c] + value, rest))
  {
    if c == '"' || c == '\\' {
      var s := ['\\', c] + tail;
      assert s[0] == '\\' && s[1] == c && s[2..] == tail;
    } else {
      var s := [c] + tail;
      assert s[0] == c && s[1..] == tail;
    }
  }

  lemma ReadLiteralBody(d: string, s: string, rest: string)
    requires AllDigits(d) && d != [] && DecimalValue(d) == |s|
    ensures ReadLiteral(d + ("+}\r\n" + s + rest)) == Some((s, rest))
  {
    var tail := "+}\r\n" + s + rest;
    var t := d + tail;
    DigitRunOf(d, tail);
    hide DigitRun, DecimalValue;
    assert t[..|d|] == d && t[|d|..] == tail && "+}\r\n" <= tail;
    assert t[|d| + 4..] == s + rest;
    assert (s + rest)[..|s|] == s && (s + rest)[|s|..] == rest;
  }

  lemma ReadLiteralOf(s: string, rest: string)
    ensures ReadAstring(Literal(s) + rest) == Some((s, rest))
  {
    hide Decimal, ReadQuoted, ReadLiteral, DecimalValue;
    var d := Decimal(|s|);
    Associative(['{'], d + ("+}\r\n" + s), rest);
    Associative(d, "+}\r\n" + s, rest);
    ReadLiteralBody(d, s, rest);
    assert (Literal(s) + rest)[1..] == d + ("+}\r\n" + s + rest);
  }

  /** Whatever follows it, the form that is sent reads back as the string and leaves what follows. */
  lemma AstringReadsBack(s: string, rest: string)
    ensures ReadAstring(Astring(s) + rest) == Some((s, rest))
  {
    if NeedsLiteral(s) {
      ReadLiteralOf(s, rest);
    } else {
      ReadEscaped(s, rest);
      assert Quoted(s) + rest == ['"'] + (Escape(s) + ['"'] + rest);
    }
  }

  lemma {:induction false} EscapePrintable(s: string)
    requires !NeedsLiteral(s)
    ensures !NeedsLiteral(Escape(s))
  {
    if s != [] {
      assert IsPrintable(s[0]);
      forall i | 0 <= i < |s[1..]|
        ensures IsPrintable(s[1..][i])
      {
        assert s[1..][i] == s[i + 1];
      }
      EscapePrintable(s[1..]);
    }
  }

  /** The quoted form stays on its line. */
  lemma QuotedHasNoLineBreak(s: string)
    requires !NeedsLiteral(s)
    ensures '\r' !in Astring(s) && '\n' !in Astring(s)
  {
    EscapePrintable(s);
    var q := Quoted(s);
    forall i | 0 <= i < |q|
      ensures IsPrintable(q[i])
    {
      if 0 < i < |q| - 1 {
        assert q[i] == Escape(s)[i - 1];
      }
    }
  }

  // ----- the LOGIN command

  function Login(user: string, password: string): string {
    "LOGIN " + Astring(user) + " " + Astring(password)
  }

  function ReadLogin(s: string): Option<(string, string)> {
    if !("LOGIN " <= s) then None
    else
      var (user, rest) :- ReadAstring(s[6..]);
      if rest == [] || rest[0] != ' ' then None
      else
        var (password, end) :- ReadAstring(rest[1..]);
        if end == [] then Some((user, password)) else None
  }

  /** No user name or password can end its argument early or add another: both arrive as they are. */
  lemma LoginReadsBack(user: string, password: string)
    ensures ReadLogin(Login(user, password)) == Some((user, password))
  {
    hide ReadAstring, Astring;
    var tail := " " + Astring(password);
    assert Login(user, password) == "LOGIN " + (Astring(user) + tail);
    assert Login(user, password)[6..] == Astring(user) + tail;
    AstringReadsBack(user, tail);
    assert tail[1..] == Astring(password) + [];
    AstringReadsBack(password, []);
  }

  // ----- finding a literal in a command

  /** An opening brace, digits, perhaps a plus, and a closing brace, with room for two bytes after the brace. */
  predicate BraceAt(bytes: string, i: nat) {
    && i + 2 < |bytes| && bytes[i] == '{'
    && var j := i + 1 + DigitRun(bytes[i + 1..]);
       var k := if j < |bytes| && bytes[j] == '+' then j + 1 else j;
       k < |bytes| && bytes[k] == '}'
  }

  /** The inner part of `contains_literal`. */
  method LooksLiteral(bytes: string, i: nat) returns (r: bool)
    requires i + 2 < |bytes|
    ensures r <==> BraceAt(bytes, i)
  {
    if bytes[i] != '{' {
      return false;
    }
    var j := i + 1;
    while j < |bytes| && IsDigit(bytes[j])
      invariant i < j <= |bytes|
      invariant j + DigitRun(bytes[j..]) == i + 1 + DigitRun(bytes[i + 1..])
      decreases |bytes| - j
    {
      assert bytes[j..][1..] == bytes[j + 1..];
      j := j + 1;
    }
    assert DigitRun(bytes[j..]) == 0;
    if j < |bytes| && bytes[j] == '+' {
      j := j + 1;
    }
    return j < |bytes| && bytes[j] == '}';
  }

  /** `contains_literal`. */
  method ContainsLiteral(bytes: string) returns (r: bool)
    ensures r <==> exists i: nat :: BraceAt(bytes, i)
  {
    hide DigitRun;
    var i := 0;
    while i + 2 < |bytes|
      invariant 0 <= i
      invariant forall k: nat :: k < i ==> !BraceAt(bytes, k)
      decreases |bytes| - i
    {
      var found := LooksLiteral(bytes, i);
      if found {
        return true;
      }
      i := i + 1;
    }
    return false;
  }

  lemma BraceBefore(bytes: string, i: nat, d: string, rest: string)
    requires i < |bytes| && bytes[i] == '{' && bytes[i + 1..] == d + rest
    requires AllDigits(d) && |rest| >= 2 && rest[0] == '+' && rest[1] == '}'
    ensures BraceAt(bytes, i)
  {
    DigitRunOf(d, rest);
    var j := i + 1 + |d|;
    assert bytes[j] == bytes[i + 1..][|d|] && bytes[j + 1] == bytes[i + 1..][|d| + 1];
  }

  /** A literal that `quote_astring` made is found wherever it stands in the command. */
  lemma LiteralIsFound(before: string, s: string, after: string)
    requires NeedsLiteral(s)
    ensures BraceAt(before + Astring(s) + after, |before|)
  {
    hide BraceAt, Decimal, NeedsLiteral, Quoted;
    var d := Decimal(|s|);
    var tail := "+}\r\n" + s;
    var bytes := before + Literal(s) + after;
    Associative(before, Literal(s), after);
    Associative(['{'], d + tail, after);
    Associative(d, tail, after);
    assert bytes == before + (['{'] + (d + (tail + after)));
    assert bytes[|before| + 1..] == d + (tail + after);
    BraceBefore(bytes, |before|, d, tail + after);
  }

  /** The search errs on one side only: a quoted string may look like a literal and be taken for one. */
  lemma QuotedMayLookLiteral()
    ensures !NeedsLiteral("{5}") && BraceAt(Astring("{5}"), 1)
  {
    var q := Quoted("{5}");
    assert Escape("{5}") == "{5}" by {
      assert "{5}"[1..] == "5}" && "5}"[1..] == "}" && "}"[1..] == "";
    }
    assert q == ['"', '{', '5', '}', '"'];
    assert q[2..] == ['5', '}', '"'] && q[2..][1..] == ['}', '"'];
    assert DigitRun(q[2..]) == 1;
  }

  // ----- tags

  /** `{:04}`: at least four digits. */
  function Pad(n: nat): (s: string)
    ensures AllDigits(s) && DecimalValue(s) == n
  {
    ZeroesAdd(Decimal(n), if |Decimal(n)| < 4 then 4 - |Decimal(n)| else 0);
    Zeroes(if |Decimal(n)| < 4 then 4 - |Decimal(n)| else 0) + Decimal(n)
  }

  function Zeroes(n: nat): (s: string)
    ensures |s| == n && AllDigits(s)
  {
    if n == 0 then "" else ['0'] + Zeroes(n - 1)
  }

  lemma {:induction false} ZeroesAreZero(n: nat)
    ensures DecimalValue(Zeroes(n)) == 0
  {
    if n > 0 {
      ZeroesAreZero(n - 1);
      ZeroesEnd(n);
    }
  }

  lemma {:induction false} ZeroesEnd(n: nat)
    requires n > 0
    ensures Zeroes(n) == Zeroes(n - 1) + ['0']
  {
    if n > 1 {
      ZeroesEnd(n - 1);
    }
  }

  lemma {:induction false} ZeroesAdd(d: string, n: nat)
    requires AllDigits(d)
    ensures AllDigits(Zeroes(n) + d) && DecimalValue(Zeroes(n) + d) == DecimalValue(d)
  {
    var s := Zeroes(n) + d;
    if d == [] {
      assert s == Zeroes(n);
      ZeroesAreZero(n);
    } else {
      ZeroesAdd(d[..|d| - 1], n);
      assert s[..|s| - 1] == Zeroes(n) + d[..|d| - 1];
    }
  }

  function Tag(n: nat): string {
    ['A'] + Pad(n)
  }

  lemma TagsDiffer(a: nat, b: nat)
    requires a != b
    ensures Tag(a) != Tag(b)
  {
    assert Tag(a)[1..] == Pad(a) && Tag(b)[1..] == Pad(b);
  }

  /** The first tag, and the one after the last of four digits. */
  lemma TagsAsWritten()
    ensures Tag(1) == "A0001" && Tag(10000) == "A10000"
  {
    assert Decimal(1) == "1" && Decimal(10) == "10" && Decimal(100) == "100" && Decimal(1000) == "1000";
    assert Decimal(10000) == "10000";
    assert Zeroes(0) == "" && Zeroes(1) == "0" && Zeroes(2) == "00" && Zeroes(3) == "000";
  }

  const U32_LIMIT := 0x1_0000_0000

  /** The number after `n`: it wraps round to 1. */
  function NextNumber(n: nat): nat {
    var m := (n + 1) % U32_LIMIT;
    if m < 1 then 1 else m
  }

  /** After 4,294,967,295 comes 1 again. */
  lemma NumbersWrapAround(n: nat)
    requires 1 <= n <= 0xFFFF_FFFF
    ensures NextNumber(n) == if n == 0xFFFF_FFFF then 1 else n + 1
  {
  }

  /** The number that the builder holds after `k` tags. */
  function NumberAfter(k: nat): (n: nat)
    ensures 1 <= n < U32_LIMIT
  {
    if k == 0 then 1 else NextNumber(NumberAfter(k - 1))
  }

  lemma NextIs(n: nat)
    requires 1 <= n < U32_LIMIT
    ensures NextNumber(n) == if n == U32_LIMIT - 1 then 1 else n + 1
  {
  }

  lemma {:induction false} NumberAfterIs(k: nat)
    ensures NumberAfter(k) == 1 + k % (U32_LIMIT - 1)
  {
    hide NextNumber;
    if k > 0 {
      NumberAfterIs(k - 1);
      ModStep(k - 1, U32_LIMIT - 1);
      NextIs(NumberAfter(k - 1));
    }
  }

  lemma ModStep(x: nat, m: nat)
    requires m == U32_LIMIT - 1
    ensures (x + 1) % m == if x % m == m - 1 then 0 else x % m + 1
  {
  }

  /** `CommandBuilder`. */
  class CommandBuilder {
    var nextTag: nat
    ghost var sent: nat // how many tags were taken

    ghost predicate Valid()
      reads this
    {
      nextTag == NumberAfter(sent)
    }

    constructor ()
      ensures Valid() && sent == 0
    {
      nextTag, sent := 1, 0;
    }

    method NextTag() returns (tag: string)
      requires Valid()
      modifies this
      ensures Valid() && sent == old(sent) + 1
      ensures tag == Tag(NumberAfter(old(sent)))
    {
      tag := ['A'] + Pad(nextTag);
      nextTag := NextNumber(nextTag);
      sent := sent + 1;
    }

    method Build(command: string) returns (tag: string, out: string)
      requires Valid()
      modifies this
      ensures Valid() && sent == old(sent) + 1
      ensures tag == Tag(NumberAfter(old(sent))) && out == tag + " " + command + "\r\n"
    {
      tag := NextTag();
      out := tag + " " + command + "\r\n";
    }
  }

  /** Two of any 4,294,967,295 consecutive tags are different. */
  lemma TagsDoNotRepeat(k: nat, l: nat)
    requires k < l < k + U32_LIMIT - 1
    ensures Tag(NumberAfter(k)) != Tag(NumberAfter(l))
  {
    NumberAfterIs(k);
    NumberAfterIs(l);
    ModDiffers(k, l, U32_LIMIT - 1);
    TagsDiffer(NumberAfter(k), NumberAfter(l));
  }

  lemma ModDiffers(k: nat, l: nat, m: nat)
    requires m == U32_LIMIT - 1 && k < l < k + m
    ensures k % m != l % m
  {
  }
}
