/** UTF-8 as Rust's standard library checks and repairs it (tables 3-7 and U+FFFD substitution of maximal subparts
    of the Unicode standard). Bytes are characters below 256. */
module Utf8 {
  predicate IsBytes(s: string) {
    forall i :: 0 <= i < |s| ==> s[i] as int < 256
  }

  predicate InRange(s: string, i: nat, lo: int, hi: int) {
    i < |s| && lo <= s[i] as int <= hi
  }

  /** How many bytes the lead byte announces; zero when it is no lead byte. */
  function Width(lead: int): nat {
    if lead <= 0x7F then 1
    else if 0xC2 <= lead <= 0xDF then 2
    else if 0xE0 <= lead <= 0xEF then 3
    else if 0xF0 <= lead <= 0xF4 then 4
    else 0
  }

  /** The second byte fits the lead byte: no overlong forms, no surrogates, nothing beyond U+10FFFF. */
  predicate SecondFits(s: string)
    requires s != []
  {
    var lead := s[0] as int;
    InRange(s, 1, if lead == 0xE0 then 0xA0 else if lead == 0xF0 then 0x90 else 0x80,
                  if lead == 0xED then 0x9F else if lead == 0xF4 then 0x8F else 0xBF)
  }

  /** The length of the character at the front, or zero when there is no well-formed one. */
  function CharLen(s: string): (n: nat)
    requires s != []
    ensures n <= |s|
    ensures forall i :: 0 < i < n ==> s[i] as int >= 0x80
  {
    var w := Width(s[0] as int);
    if w == 1 then 1
    else if w == 0 || !SecondFits(s) then 0
    else if w == 2 then 2
    else if !InRange(s, 2, 0x80, 0xBF) then 0
    else if w == 3 then 3
    else if !InRange(s, 3, 0x80, 0xBF) then 0
    else 4
  }

  /** The length of the ill-formed piece at the front: the longest start of a character. */
  function BadLen(s: string): (n: nat)
    requires s != [] && CharLen(s) == 0
    ensures 1 <= n <= |s|
  {
    var w := Width(s[0] as int);
    if w <= 2 || !SecondFits(s) then 1
    else if w == 3 || !InRange(s, 2, 0x80, 0xBF) then 2
    else 3
  }

  /** `str::from_utf8` accepts the bytes. */
  predicate Valid(s: string)
    decreases |s|
  {
    s == [] || (CharLen(s) > 0 && Valid(s[CharLen(s)..]))
  }

  const REPLACEMENT := [0xEF as char, 0xBF as char, 0xBD as char]

  /** `String::from_utf8_lossy`. */
  function Lossy(s: string): string
    decreases |s|
  {
    if s == [] then []
    else if CharLen(s) > 0 then s[..CharLen(s)] + Lossy(s[CharLen(s)..])
    else REPLACEMENT + Lossy(s[BadLen(s)..])
  }

  lemma CharLenPrefix(s: string, t: string)
    requires s != []
    ensures CharLen(s) > 0 ==> CharLen(s + t) == CharLen(s)
  {
    var u := s + t;
    assert forall i :: 0 <= i < |s| ==> u[i] == s[i];
  }

  lemma CharLenOfChar(s: string)
    requires s != [] && CharLen(s) > 0
    ensures CharLen(s[..CharLen(s)]) == CharLen(s)
  {
    var c := s[..CharLen(s)];
    assert forall i :: 0 <= i < |c| ==> c[i] == s[i];
  }

  lemma CharThenValid(c: string, t: string)
    requires c != [] && CharLen(c) == |c| && Valid(t)
    ensures Valid(c + t)
  {
    CharLenPrefix(c, t);
    assert (c + t)[|c|..] == t;
  }

  lemma ReplacementIsChar()
    ensures CharLen(REPLACEMENT) == |REPLACEMENT| == 3 && IsBytes(REPLACEMENT)
  {
  }

  /** The repaired bytes are valid. */
  lemma {:induction false} LossyIsValid(s: string)
    ensures Valid(Lossy(s))
    decreases |s|
  {
    hide CharLen, BadLen;
    if s != [] {
      var n := CharLen(s);
      if n > 0 {
        LossyIsValid(s[n..]);
        CharLenOfChar(s);
        CharThenValid(s[..n], Lossy(s[n..]));
      } else {
        LossyIsValid(s[BadLen(s)..]);
        ReplacementIsChar();
        CharThenValid(REPLACEMENT, Lossy(s[BadLen(s)..]));
      }
    }
  }

  /** Valid bytes need no repair. */
  lemma {:induction false} LossyOfValid(s: string)
    requires Valid(s)
    ensures Lossy(s) == s
    decreases |s|
  {
    hide CharLen, BadLen;
    if s != [] {
      var n := CharLen(s);
      LossyOfValid(s[n..]);
      assert s == s[..n] + s[n..];
    }
  }

  lemma {:induction false} LossyIsBytes(s: string)
    requires IsBytes(s)
    ensures IsBytes(Lossy(s))
    decreases |s|
  {
    hide CharLen, BadLen;
    if s != [] {
      ReplacementIsChar();
      if CharLen(s) > 0 {
        LossyIsBytes(s[CharLen(s)..]);
      } else {
        LossyIsBytes(s[BadLen(s)..]);
      }
    }
  }

  /** Valid bytes cut in front of an ASCII byte are two valid pieces. */
  lemma {:induction false} ValidCut(s: string, i: nat)
    requires Valid(s) && i <= |s| && (i < |s| ==> s[i] as int < 0x80)
    ensures Valid(s[..i]) && Valid(s[i..])
    decreases |s|
  {
    hide CharLen, BadLen;
    if i == 0 {
      assert s[i..] == s;
    } else {
      var n := CharLen(s);
      assert n <= i;
      ValidCut(s[n..], i - n);
      CharLenOfChar(s);
      CharThenValid(s[..n], s[n..][..i - n]);
      assert s[..n] + s[n..][..i - n] == s[..i];
      assert s[n..][i - n..] == s[i..];
    }
  }
}
