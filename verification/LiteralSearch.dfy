/** When `contains_literal` (src/imap/command.rs:64-82) takes a command for one with a literal in it, which
    `run_collect` then refuses to send to some servers (src/imap/client.rs:385-395). */
module LiteralSearch {
  import opened Text
  import opened Commands

  // ----- text that looks like the start of a literal

  predicate Closes(t: string) {
    t != [] && (t[0] == '}' || (t[0] == '+' && |t| >= 2 && t[1] == '}'))
  }

  predicate DigitsThenClose(t: string) {
    if t != [] && IsDigit(t[0]) then DigitsThenClose(t[1..]) else Closes(t)
  }

  /** An opening brace, digits or none, perhaps a plus, and a closing brace. */
  predicate StartsBrace(t: string) {
    t != [] && t[0] == '{' && DigitsThenClose(t[1..])
  }

  /** Such text stands somewhere in `t`. */
  predicate HasBrace(t: string) {
    t != [] && (StartsBrace(t) || HasBrace(t[1..]))
  }

  // ----- what the search finds

  lemma {:induction false} CloseAfterDigits(t: string)
    ensures DigitsThenClose(t) <==> Closes(t[DigitRun(t)..])
  {
    if t != [] && IsDigit(t[0]) {
      CloseAfterDigits(t[1..]);
      assert t[DigitRun(t)..] == t[1..][DigitRun(t[1..])..];
    }
  }

  lemma BraceAtIs(bytes: string, i: nat)
    requires i < |bytes|
    ensures BraceAt(bytes, i) <==> i + 2 < |bytes| && StartsBrace(bytes[i..])
  {
    var t := bytes[i + 1..];
    assert bytes[i..][1..] == t;
    CloseAfterDigits(t);
    var n := DigitRun(t);
    hide DigitRun, DigitsThenClose;
    assert forall j :: 0 <= j < |t| ==> t[j] == bytes[i + 1 + j];
    assert forall j :: 0 <= j < |t[n..]| ==> t[n..][j] == t[n + j];
  }

  lemma {:induction false} ClosesBeforeEnd(t: string)
    requires DigitsThenClose(t) && t != [] && t[|t| - 1] != '}'
    ensures |t| >= 2
  {
  }

  lemma {:induction false} HasBraceAt(t: string)
    ensures HasBrace(t) <==> exists i: nat :: i < |t| && StartsBrace(t[i..])
  {
    hide StartsBrace;
    if t != [] {
      HasBraceAt(t[1..]);
      assert t[0..] == t;
      forall i: nat | i < |t[1..]|
        ensures t[1..][i..] == t[i + 1..]
      {
      }
      if HasBrace(t[1..]) {
        var i: nat :| i < |t[1..]| && StartsBrace(t[1..][i..]);
        assert StartsBrace(t[i + 1..]);
      }
      if i: nat :| i < |t| && StartsBrace(t[i..]) {
        if i > 0 {
          assert t[1..][i - 1..] == t[i..];
          assert StartsBrace(t[1..][i - 1..]);
        }
      }
    }
  }

  /** In a command that does not end with a closing brace the search finds such text wherever it stands. */
  lemma SearchFindsBraces(bytes: string)
    requires bytes != [] && bytes[|bytes| - 1] != '}'
    ensures (exists i: nat :: BraceAt(bytes, i)) <==> HasBrace(bytes)
  {
    hide BraceAt, HasBrace;
    HasBraceAt(bytes);
    if i: nat :| i < |bytes| && StartsBrace(bytes[i..]) {
      var t := bytes[i..][1..];
      assert t != [] ==> t[|t| - 1] == bytes[|bytes| - 1];
      ClosesBeforeEnd(t);
      BraceAtIs(bytes, i);
      assert BraceAt(bytes, i);
    }
    if i: nat :| BraceAt(bytes, i) {
      BraceInside(bytes, i);
      BraceAtIs(bytes, i);
    }
  }

  lemma BraceInside(bytes: string, i: nat)
    requires BraceAt(bytes, i)
    ensures i < |bytes|
  {
  }

  // ----- such text in what `quote_astring` makes

  /** A character that cannot be part of it. */
  predicate Separates(c: char) {
    !IsDigit(c) && c !in {'{', '+', '}'}
  }

  lemma {:induction false} DigitsUpToSeparator(a: string, c: char, b: string)
    requires Separates(c)
    ensures DigitsThenClose(a + ([c] + b)) <==> DigitsThenClose(a)
  {
    var s := a + ([c] + b);
    if a == [] {
      assert s[0] == c;
    } else {
      assert s[0] == a[0] && s[1..] == a[1..] + ([c] + b);
      DigitsUpToSeparator(a[1..], c, b);
    }
  }

  lemma {:induction false} BracesAroundSeparator(a: string, c: char, b: string)
    requires Separates(c)
    ensures HasBrace(a + ([c] + b)) <==> HasBrace(a) || HasBrace(b)
  {
    hide DigitsThenClose;
    var s := a + ([c] + b);
    if a == [] {
      assert s[0] == c && s[1..] == b;
    } else {
      assert s[0] == a[0] && s[1..] == a[1..] + ([c] + b);
      DigitsUpToSeparator(a[1..], c, b);
      BracesAroundSeparator(a[1..], c, b);
    }
  }

  lemma {:induction false} EscapeKeepsDigits(s: string)
    ensures DigitsThenClose(Escape(s)) <==> DigitsThenClose(s)
  {
    if s != [] {
      EscapeKeepsDigits(s[1..]);
      if s[0] == '"' || s[0] == '\\' {
        assert Escape(s)[0] == '\\';
      } else {
        assert Escape(s)[1..] == Escape(s[1..]);
        EscapeKeepsBrace(s[1..]);
      }
    }
  }

  lemma EscapeKeepsBrace(s: string)
    ensures (s != [] && s[0] == '}') <==> (Escape(s) != [] && Escape(s)[0] == '}')
  {
  }

  lemma {:induction false} EscapeKeepsBraces(s: string)
    ensures HasBrace(Escape(s)) <==> HasBrace(s)
  {
    hide DigitsThenClose;
    if s != [] {
      EscapeKeepsBraces(s[1..]);
      EscapeKeepsDigits(s[1..]);
      var e := Escape(s);
      if s[0] == '"' || s[0] == '\\' {
        assert e[1..] == [s[0]] + Escape(s[1..]);
        assert e[1..][1..] == Escape(s[1..]);
      } else {
        assert e[1..] == Escape(s[1..]);
      }
    }
  }

  lemma QuotedBraces(s: string)
    ensures HasBrace(Quoted(s)) <==> HasBrace(s)
  {
    var e := Escape(s);
    hide StartsBrace, Escape;
    EscapeKeepsBraces(s);
    assert Quoted(s) == [] + (['"'] + (e + (['"'] + [])));
    BracesAroundSeparator([], '"', e + (['"'] + []));
    BracesAroundSeparator(e, '"', []);
  }

  lemma BracesOfArgument(s: string)
    ensures HasBrace(Astring(s)) <==> NeedsLiteral(s) || HasBrace(s)
  {
    hide HasBrace, Quoted, Literal, NeedsLiteral;
    if NeedsLiteral(s) {
      LiteralIsFound("", s, "");
      assert "" + Astring(s) + "" == Astring(s);
      BraceInside(Astring(s), 0);
      BraceAtIs(Astring(s), 0);
      HasBraceAt(Astring(s));
      assert StartsBrace(Astring(s)[0..]);
    } else {
      QuotedBraces(s);
    }
  }

  /** An argument is taken for a literal exactly when it is one, or holds text that looks like the start of one. */
  lemma ArgumentLooksLiteral(s: string)
    ensures (exists i: nat :: BraceAt(Astring(s), i)) <==> NeedsLiteral(s) || HasBrace(s)
  {
    hide HasBrace, NeedsLiteral, BraceAt, Literal;
    if NeedsLiteral(s) {
      LiteralIsFound("", s, "");
      assert "" + Astring(s) + "" == Astring(s);
    } else {
      SearchFindsBraces(Astring(s));
      BracesOfArgument(s);
    }
  }

  /** And so is a LOGIN command, by either of its arguments. */
  lemma LoginLooksLiteral(user: string, password: string)
    ensures
      (exists i: nat :: BraceAt(Login(user, password), i))
      <==>
      NeedsLiteral(user) || HasBrace(user) || NeedsLiteral(password) || HasBrace(password)
  {
    hide HasBrace, NeedsLiteral, BraceAt, Literal, StartsBrace, Astring;
    var u, p := Astring(user), Astring(password);
    var line := Login(user, password);
    assert line == "LOGIN" + ([' '] + (u + ([' '] + p)));
    BracesAroundSeparator("LOGIN", ' ', u + ([' '] + p));
    BracesAroundSeparator(u, ' ', p);
    NoBraceInLogin();
    BracesOfArgument(user);
    BracesOfArgument(password);
    if NeedsLiteral(password) {
      LiteralIsFound("LOGIN " + u + " ", password, "");
      assert ("LOGIN " + u + " ") + p + "" == line;
    } else {
      QuotedEnds(password);
      assert line[|line| - 1] == p[|p| - 1];
      SearchFindsBraces(line);
    }
  }

  lemma QuotedEnds(s: string)
    requires !NeedsLiteral(s)
    ensures Astring(s) != [] && Astring(s)[|Astring(s)| - 1] == '"'
  {
  }

  lemma NoBraceInLogin()
    ensures !HasBrace("LOGIN")
  {
    assert "LOGIN"[1..] == "OGIN" && "OGIN"[1..] == "GIN" && "GIN"[1..] == "IN" && "IN"[1..] == "N" && "N"[1..] == "";
  }
}
