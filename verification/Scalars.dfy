/** UTF-8 as section 3 of RFC 3629 writes it: the bytes of each scalar value. Valid text and the pieces that are
    repaired are measured by it. */
module Scalars {
  import opened Utf8

  predicate IsScalar(c: int) {
    0 <= c < 0xD800 || 0xE000 <= c <= 0x10FFFF
  }

  function Encoded(c: int): string
    requires IsScalar(c)
  {
    if c < 0x80 then [c as char]
    else if c < 0x800 then [(0xC0 + c / 64) as char, (0x80 + c % 64) as char]
    else if c < 0x10000 then [(0xE0 + c / 4096) as char, (0x80 + c / 64 % 64) as char, (0x80 + c % 64) as char]
    else
      [(0xF0 + c / 262144) as char, (0x80 + c / 4096 % 64) as char, (0x80 + c / 64 % 64) as char,
       (0x80 + c % 64) as char]
  }

  lemma BytesOfTwo(c: int)
    requires 0x80 <= c < 0x800
    ensures 0xC2 <= 0xC0 + c / 64 <= 0xDF && 0x80 <= 0x80 + c % 64 <= 0xBF
  {
  }

  lemma BytesOfThree(c: int)
    requires 0x800 <= c < 0x10000 && IsScalar(c)
    ensures 0xE0 <= 0xE0 + c / 4096 <= 0xEF && 0 <= c / 64 % 64 < 64 && 0 <= c % 64 < 64
    ensures c / 4096 == 0 ==> c / 64 % 64 >= 0x20
    ensures c / 4096 == 13 ==> c / 64 % 64 <= 0x1F
  {
  }

  lemma BytesOfFour(c: int)
    requires 0x10000 <= c <= 0x10FFFF
    ensures 0xF0 <= 0xF0 + c / 262144 <= 0xF4 && 0 <= c / 4096 % 64 < 64 && 0 <= c / 64 % 64 < 64 && 0 <= c % 64 < 64
    ensures c / 262144 == 0 ==> c / 4096 % 64 >= 0x10
    ensures c / 262144 == 4 ==> c / 4096 % 64 <= 0x0F
  {
  }

  /** A scalar's bytes are the character at the front, whatever follows. */
  lemma EncodedIsChar(c: int, t: string)
    requires IsScalar(c)
    ensures CharLen(Encoded(c) + t) == |Encoded(c)|
  {
    var s := Encoded(c) + t;
    if 0x80 <= c < 0x800 {
      BytesOfTwo(c);
      assert s[0] == Encoded(c)[0] && s[1] == Encoded(c)[1];
    } else if 0x800 <= c < 0x10000 {
      BytesOfThree(c);
      assert s[0] == Encoded(c)[0] && s[1] == Encoded(c)[1] && s[2] == Encoded(c)[2];
    } else if 0x10000 <= c {
      BytesOfFour(c);
      assert s[0] == Encoded(c)[0] && s[1] == Encoded(c)[1] && s[2] == Encoded(c)[2] && s[3] == Encoded(c)[3];
    }
  }

  lemma LastDigit(x: int, e: int)
    requires 0 <= e < 64
    ensures (64 * x + e) / 64 == x && (64 * x + e) % 64 == e
  {
  }

  lemma Quotients(c: int)
    ensures c / 4096 == c / 64 / 64 && c / 262144 == c / 64 / 64 / 64
  {
  }

  lemma Digits64(a: int, b: int, d: int, e: int)
    requires 0 <= b < 64 && 0 <= d < 64 && 0 <= e < 64
    ensures var c := 262144 * a + 4096 * b + 64 * d + e;
      c / 262144 == a && c / 4096 % 64 == b && c / 64 % 64 == d && c % 64 == e
  {
    var y := 64 * a + b;
    var x := 64 * y + d;
    LastDigit(a, b);
    LastDigit(y, d);
    LastDigit(x, e);
    Quotients(64 * x + e);
    assert 64 * x + e == 262144 * a + 4096 * b + 64 * d + e;
  }

  /** The character at the front is the bytes of a scalar. */
  lemma CharIsEncoded(s: string) returns (c: int)
    requires s != [] && CharLen(s) > 0
    ensures IsScalar(c) && Encoded(c) == s[..CharLen(s)]
  {
    if CharLen(s) == 1 {
      c := s[0] as int;
    } else if CharLen(s) == 2 {
      c := 64 * (s[0] as int - 0xC0) + (s[1] as int - 0x80);
      Digits64(0, 0, s[0] as int - 0xC0, s[1] as int - 0x80);
    } else if CharLen(s) == 3 {
      c := ThreeBytes(s);
    } else {
      c := FourBytes(s);
    }
  }

  lemma ThreeBytes(s: string) returns (c: int)
    requires s != [] && CharLen(s) == 3
    ensures IsScalar(c) && Encoded(c) == s[..3]
  {
    var x, y, z := s[0] as int - 0xE0, s[1] as int - 0x80, s[2] as int - 0x80;
    c := 4096 * x + 64 * y + z;
    Digits64(0, x, y, z);
  }

  lemma FourBytes(s: string) returns (c: int)
    requires s != [] && CharLen(s) == 4
    ensures IsScalar(c) && Encoded(c) == s[..4]
  {
    var w, x, y, z := s[0] as int - 0xF0, s[1] as int - 0x80, s[2] as int - 0x80, s[3] as int - 0x80;
    c := 262144 * w + 4096 * x + 64 * y + z;
    Digits64(w, x, y, z);
  }

  // ----- valid text

  predicate AreScalars(cs: seq<int>) {
    forall i :: 0 <= i < |cs| ==> IsScalar(cs[i])
  }

  function EncodedAll(cs: seq<int>): string
    requires AreScalars(cs)
  {
    if cs == [] then [] else Encoded(cs[0]) + EncodedAll(cs[1..])
  }

  lemma {:induction false} EncodedIsValid(cs: seq<int>)
    requires AreScalars(cs)
    ensures Valid(EncodedAll(cs))
  {
    hide CharLen, Encoded;
    if cs != [] {
      var first, rest := Encoded(cs[0]), EncodedAll(cs[1..]);
      EncodedIsChar(cs[0], rest);
      EncodedIsValid(cs[1..]);
      EncodedNotEmpty(cs[0]);
      assert (first + rest)[|first|..] == rest;
    }
  }

  lemma EncodedNotEmpty(c: int)
    requires IsScalar(c)
    ensures |Encoded(c)| >= 1
  {
  }

  lemma {:induction false} ValidHasScalars(s: string) returns (cs: seq<int>)
    requires Valid(s)
    ensures AreScalars(cs) && EncodedAll(cs) == s
    decreases |s|
  {
    hide CharLen, Encoded;
    if s == [] {
      cs := [];
    } else {
      var n := CharLen(s);
      var c := CharIsEncoded(s);
      var rest := ValidHasScalars(s[n..]);
      cs := [c] + rest;
      assert cs[1..] == rest && s == s[..n] + s[n..];
    }
  }

  /** Text is valid exactly when it is the bytes of some scalars. */
  lemma ValidIsEncoded(s: string)
    ensures Valid(s) <==> exists cs :: AreScalars(cs) && EncodedAll(cs) == s
  {
    if Valid(s) {
      var cs := ValidHasScalars(s);
    }
    if cs :| AreScalars(cs) && EncodedAll(cs) == s {
      EncodedIsValid(cs);
    }
  }

  // ----- pieces that are replaced

  /** The bytes of some scalar begin so and go on. */
  ghost predicate IsStart(p: string) {
    exists c :: IsScalar(c) && |p| < |Encoded(c)| && p <= Encoded(c)
  }

  /** What is replaced by one U+FFFD is the longest piece at the front that the bytes of a scalar begin with, or one
      byte. */
  lemma ReplacedPiece(s: string, k: nat)
    requires s != [] && CharLen(s) == 0
    ensures BadLen(s) == 1 || IsStart(s[..BadLen(s)])
    ensures BadLen(s) < k <= |s| ==> !IsStart(s[..k])
    ensures REPLACEMENT == Encoded(0xFFFD)
  {
    if BadLen(s) > 1 {
      StartOfBad(s);
    }
    if BadLen(s) < k <= |s| && IsStart(s[..k]) {
      StartIsBad(s, k);
    }
  }

  lemma StartOfBad(s: string)
    requires s != [] && CharLen(s) == 0 && BadLen(s) > 1
    ensures IsStart(s[..BadLen(s)])
  {
    var lead, second := s[0] as int, s[1] as int;
    var c;
    if Width(lead) == 3 {
      Digits64(0, lead - 0xE0, second - 0x80, 0);
      c := 4096 * (lead - 0xE0) + 64 * (second - 0x80);
    } else {
      var third := if BadLen(s) == 3 then s[2] as int - 0x80 else 0;
      Digits64(lead - 0xF0, second - 0x80, third, 0);
      c := 262144 * (lead - 0xF0) + 4096 * (second - 0x80) + 64 * third;
    }
    assert IsScalar(c) && |Encoded(c)| == Width(lead) && s[..BadLen(s)] <= Encoded(c);
  }

  lemma StartIsBad(s: string, k: nat)
    requires s != [] && CharLen(s) == 0 && 1 < k <= |s| && IsStart(s[..k])
    ensures k <= BadLen(s)
  {
    var c :| IsScalar(c) && k < |Encoded(c)| && s[..k] <= Encoded(c);
    var e := Encoded(c);
    assert s[0] == s[..k][0] == e[0] && s[1] == s[..k][1] == e[1];
    if c < 0x10000 {
      BytesOfThree(c);
    } else {
      BytesOfFour(c);
      if k == 3 {
        assert s[2] == s[..k][2] == e[2];
      }
    }
  }
}
