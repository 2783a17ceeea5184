/** Hrefs of the DAV client (src/dav/href.rs): percent-encoding and the normal form of a path.
    Text is bytes here, one character for each byte. */
module Hrefs {
  import opened Wrappers
  import opened Text
  import opened Utf8

  // ----- percent-encoding

  /** `is_safe`. */
  predicate IsSafe(c: char) {
    || 'A' <= c <= 'Z' || 'a' <= c <= 'z' || '0' <= c <= '9'
    || c == '-' || c == '_' || c == '.' || c == '~' || c == '/' || c == '@'
  }

  /** `upper_hex`. */
  function UpperHex(nibble: int): char
    requires 0 <= nibble < 16
  {
    if nibble <= 9 then ('0' as int + nibble) as char else ('A' as int + nibble - 10) as char
  }

  function EncodeByte(c: char): string
    requires c as int < 256
  {
    if IsSafe(c) then [c] else ['%', UpperHex(c as int / 16), UpperHex(c as int % 16)]
  }

  function Encode(s: string): string
    requires IsBytes(s)
  {
    if s == [] then [] else EncodeByte(s[0]) + Encode(s[1..])
  }

  lemma {:induction false} EncodeConcat(a: string, b: string)
    requires IsBytes(a) && IsBytes(b)
    ensures IsBytes(a + b) && Encode(a + b) == Encode(a) + Encode(b)
  {
    if a == [] {
      assert a + b == b && Encode(a) == [];
    } else {
      EncodeConcat(a[1..], b);
      assert (a + b)[1..] == a[1..] + b;
      assert EncodeByte(a[0]) + (Encode(a[1..]) + Encode(b)) == EncodeByte(a[0]) + Encode(a[1..]) + Encode(b);
    }
  }

  /** `percent_encode_safe`. */
  method PercentEncodeSafe(s: string) returns (out: string)
    requires IsBytes(s)
    ensures out == Encode(s)
  {
    out := [];
    for i := 0 to |s|
      invariant out == Encode(s[..i])
    {
      var byte := s[i];
      EncodeConcat(s[..i], [byte]);
      assert s[..i + 1] == s[..i] + [byte];
      assert Encode([byte]) == EncodeByte(byte) + Encode([]);
      if IsSafe(byte) {
        out := out + [byte];
      } else {
        out := out + ['%', UpperHex(byte as int / 16), UpperHex(byte as int % 16)];
      }
    }
    assert s[..|s|] == s;
  }

  /** The byte of an escape at the front: a percent sign and two hexadecimal digits. */
  function Escape(s: string): Option<char> {
    if |s| >= 3 && s[0] == '%' then
      var hi :- HexDigit(s[1]);
      var lo :- HexDigit(s[2]);
      Some((16 * hi + lo) as char)
    else None
  }

  /** The bytes that an encoded text stands for. */
  function Unescape(s: string): string {
    if s == [] then []
    else
      match Escape(s)
      case Some(c) => [c] + Unescape(s[3..])
      case None => [s[0]] + Unescape(s[1..])
  }

  /** What `percent_decode` returns: bytes that are no text are repaired. */
  function Decode(s: string): string {
    Lossy(Unescape(s))
  }

  lemma UnescapeAt(bytes: string, i: nat)
    requires i < |bytes|
    ensures var escape := Escape(bytes[i..]);
      if escape.Some? then i + 3 <= |bytes| && Unescape(bytes[i..]) == [escape.value] + Unescape(bytes[i + 3..])
      else Unescape(bytes[i..]) == [bytes[i]] + Unescape(bytes[i + 1..])
  {
    if Escape(bytes[i..]).Some? {
      assert bytes[i..][3..] == bytes[i + 3..];
    } else {
      assert bytes[i..][1..] == bytes[i + 1..];
    }
  }

  /** `percent_decode`. */
  method PercentDecode(bytes: string) returns (r: string)
    ensures r == Decode(bytes)
  {
    hide Escape, Unescape, Valid, Lossy;
    var buf: string := [];
    var i := 0;
    UnescapeNothing();
    assert bytes[0..] == bytes && [] + Unescape(bytes) == Unescape(bytes);
    while i < |bytes|
      invariant 0 <= i <= |bytes|
      invariant buf + Unescape(bytes[i..]) == Unescape(bytes)
      decreases |bytes| - i
    {
      UnescapeAt(bytes, i);
      var escape := Escape(bytes[i..]);
      if escape.Some? {
        Associative(buf, [escape.value], Unescape(bytes[i + 3..]));
        buf := buf + [escape.value];
        i := i + 3;
      } else {
        Associative(buf, [bytes[i]], Unescape(bytes[i + 1..]));
        buf := buf + [bytes[i]];
        i := i + 1;
      }
    }
    assert bytes[i..] == [] && buf + [] == buf;
    if Valid(buf) {
      LossyOfValid(buf);
      r := buf;
    } else {
      r := Lossy(buf);
    }
  }

  lemma UnescapeNothing()
    ensures Unescape([]) == []
  {
  }

  // ----- round trips

  lemma HexOfByte(c: char)
    requires c as int < 256
    ensures HexDigit(UpperHex(c as int / 16)) == Some(c as int / 16)
    ensures HexDigit(UpperHex(c as int % 16)) == Some(c as int % 16)
  {
  }

  lemma UnescapeByte(c: char, rest: string)
    requires c as int < 256
    ensures Unescape(EncodeByte(c) + rest) == [c] + Unescape(rest)
  {
    HexOfByte(c);
    hide HexDigit, UpperHex;
    var s := EncodeByte(c) + rest;
    if IsSafe(c) {
      assert s[1..] == rest;
    } else {
      assert s[3..] == rest;
    }
  }

  lemma {:induction false} UnescapeEncode(s: string)
    requires IsBytes(s)
    ensures Unescape(Encode(s)) == s
  {
    if s != [] {
      UnescapeEncode(s[1..]);
      UnescapeByte(s[0], Encode(s[1..]));
    }
  }

  /** Decoding undoes encoding, for all text. */
  lemma DecodeEncode(s: string)
    requires IsBytes(s) && Valid(s)
    ensures Decode(Encode(s)) == s
  {
    UnescapeEncode(s);
    LossyOfValid(s);
  }

  /** So no two texts have the same encoding. */
  lemma EncodeIsInjective(s: string, t: string)
    requires IsBytes(s) && Valid(s) && IsBytes(t) && Valid(t)
    requires Encode(s) == Encode(t)
    ensures s == t
  {
    DecodeEncode(s);
    DecodeEncode(t);
  }

  lemma {:induction false} UnescapeIsBytes(s: string)
    requires IsBytes(s)
    ensures IsBytes(Unescape(s))
  {
    if s != [] {
      if Escape(s).Some? {
        UnescapeIsBytes(s[3..]);
      } else {
        UnescapeIsBytes(s[1..]);
      }
    }
  }

  lemma DecodeIsText(s: string)
    requires IsBytes(s)
    ensures IsBytes(Decode(s)) && Valid(Decode(s))
  {
    UnescapeIsBytes(s);
    LossyIsBytes(Unescape(s));
    LossyIsValid(Unescape(s));
  }

  /** `normalise_path`, given the path of the URL. */
  function NormalisePath(path: string): string
    requires IsBytes(path)
  {
    DecodeIsText(if path == [] then "/" else path);
    Encode(Decode(if path == [] then "/" else path))
  }

  lemma EncodeIsBytes(s: string)
    requires IsBytes(s)
    ensures IsBytes(Encode(s))
  {
    if s != [] {
      EncodeIsBytes(s[1..]);
    }
  }

  lemma EncodeOfNothing(s: string)
    requires IsBytes(s)
    ensures Encode(s) == [] <==> s == []
  {
  }

  lemma NonEmptyDecode(s: string)
    requires s != []
    ensures Decode(s) != []
  {
    assert Unescape(s) != [];
  }

  /** A normal form is its own normal form. */
  lemma NormaliseIsIdempotent(path: string)
    requires IsBytes(path)
    ensures IsBytes(NormalisePath(path))
    ensures NormalisePath(NormalisePath(path)) == NormalisePath(path)
  {
    var p := if path == [] then "/" else path;
    DecodeIsText(p);
    EncodeIsBytes(Decode(p));
    NonEmptyDecode(p);
    EncodeOfNothing(Decode(p));
    DecodeEncode(Decode(p));
  }

  // ----- the characters of an encoding

  predicate IsUpperHex(c: char) {
    '0' <= c <= '9' || 'A' <= c <= 'F'
  }

  /** An unreserved character (section 2.3 of RFC 3986), a slash or an at sign. */
  predicate StandsForItself(c: char) {
    || 'A' <= c <= 'Z' || 'a' <= c <= 'z' || '0' <= c <= '9'
    || c == '-' || c == '.' || c == '_' || c == '~' || c == '/' || c == '@'
  }

  /** Characters that stand for themselves, and escapes of capital digits. */
  predicate IsEncoded(t: string) {
    || t == []
    || (StandsForItself(t[0]) && IsEncoded(t[1..]))
    || (|t| >= 3 && t[0] == '%' && IsUpperHex(t[1]) && IsUpperHex(t[2]) && IsEncoded(t[3..]))
  }

  lemma {:induction false} EncodeIsNoShorter(s: string)
    requires IsBytes(s)
    ensures |Encode(s)| >= |s|
  {
    if s != [] {
      EncodeIsNoShorter(s[1..]);
    }
  }

  /** So no character of an encoding ends a path; and an encoding is the text itself exactly when that holds nothing
      but characters that stand for themselves. */
  lemma {:induction false} EncodedIsEncoded(s: string)
    requires IsBytes(s)
    ensures IsEncoded(Encode(s)) && '?' !in Encode(s) && '#' !in Encode(s)
    ensures Encode(s) == s <==> forall c :: c in s ==> StandsForItself(c)
  {
    if s != [] {
      EncodedIsEncoded(s[1..]);
      var first, rest := EncodeByte(s[0]), Encode(s[1..]);
      assert Encode(s) == first + rest && s == [s[0]] + s[1..];
      if IsSafe(s[0]) {
        assert (first + rest)[1..] == rest;
      } else {
        assert (first + rest)[3..] == rest;
        EncodeIsNoShorter(s[1..]);
        assert |Encode(s)| > |s|;
        assert s[0] in s && !StandsForItself(s[0]);
      }
    }
  }

  // ----- collections and components

  function TrimSlashes(s: string): (r: string)
    ensures r <= s
    ensures r != [] ==> r[|r| - 1] != '/'
    ensures |r| < |s| ==> s[|r|] == '/'
  {
    if s != [] && s[|s| - 1] == '/' then TrimSlashes(s[..|s| - 1]) else s
  }

  /** The text after the last slash. */
  function Tail(s: string): (r: string)
    ensures '/' !in r && |r| <= |s| && s[|s| - |r|..] == r
    ensures '/' in s ==> |r| < |s| && s[|s| - |r| - 1] == '/'
    ensures '/' !in s ==> r == s
  {
    if s == [] || s[|s| - 1] == '/' then []
    else
      var r := Tail(s[..|s| - 1]);
      assert s == s[..|s| - 1] + [s[|s| - 1]];
      r + [s[|s| - 1]]
  }

  /** `last_path_component`. */
  function LastPathComponent(href: string): string {
    Decode(Tail(TrimSlashes(href)))
  }

  /** `parent_collection`. */
  function ParentCollection(href: string): string {
    var trimmed := TrimSlashes(href);
    if '/' in trimmed then trimmed[..|trimmed| - |Tail(trimmed)|] else "/"
  }

  function TrailingSlashes(href: string): string {
    href[|TrimSlashes(href)|..]
  }

  /** The text is the encoding of some text. */
  predicate IsNormal(h: string) {
    IsBytes(h) && Valid(Unescape(h)) && IsBytes(Unescape(h)) && Encode(Unescape(h)) == h
  }

  lemma NormaliseIsNormal(path: string)
    requires IsBytes(path)
    ensures IsNormal(NormalisePath(path))
  {
    var p := if path == [] then "/" else path;
    DecodeIsText(p);
    EncodeIsBytes(Decode(p));
    UnescapeEncode(Decode(p));
  }

  /** A slash in an encoding is a slash of the text: what the encoding is cut into there is what the text is. */
  lemma {:induction false} CutAtSlash(v: string, i: nat) returns (j: nat)
    requires IsBytes(v) && Valid(v) && i <= |Encode(v)|
    requires i < |Encode(v)| ==> Encode(v)[i] == '/'
    ensures j <= |v| && Encode(v)[..i] == Encode(v[..j]) && Encode(v)[i..] == Encode(v[j..])
    ensures Valid(v[..j]) && Valid(v[j..])
    decreases |v|
  {
    j := CutPoint(v, i);
    ValidCut(v, j);
  }

  lemma SlashStaysAlone(c: char)
    requires c as int < 256
    ensures forall i :: 0 <= i < |EncodeByte(c)| ==> (EncodeByte(c)[i] == '/' <==> c == '/')
    ensures |EncodeByte(c)| >= 1
    ensures c == '/' ==> EncodeByte(c) == ['/']
  {
  }

  lemma CutConcat(a: string, b: string, i: nat)
    requires |a| <= i <= |a| + |b|
    ensures (a + b)[..i] == a + b[..i - |a|] && (a + b)[i..] == b[i - |a|..]
    ensures i < |a| + |b| ==> (a + b)[i] == b[i - |a|]
  {
  }

  lemma EncodeCons(c: char, s: string)
    requires c as int < 256 && IsBytes(s)
    ensures IsBytes([c] + s) && Encode([c] + s) == EncodeByte(c) + Encode(s)
  {
    assert ([c] + s)[1..] == s;
  }

  lemma {:induction false} CutPoint(v: string, i: nat) returns (j: nat)
    requires IsBytes(v) && i <= |Encode(v)|
    requires i < |Encode(v)| ==> Encode(v)[i] == '/'
    ensures j <= |v| && Encode(v)[..i] == Encode(v[..j]) && Encode(v)[i..] == Encode(v[j..])
    ensures j < |v| ==> v[j] == '/'
    decreases |v|
  {
    if v == [] {
      j := 0;
    } else {
      var c, w := v[0], v[1..];
      assert v == [c] + w;
      EncodeCons(c, w);
      SlashStaysAlone(c);
      hide EncodeByte, Encode;
      if i == 0 {
        j := 0;
        EncodeNothing();
        assert v[..0] == [] && v[0..] == v && Encode(v)[0..] == Encode(v);
      } else {
        assert i >= |EncodeByte(c)|;
        CutConcat(EncodeByte(c), Encode(w), i);
        var k := CutPoint(w, i - |EncodeByte(c)|);
        j := k + 1;
        CutCons(c, w, i, k);
      }
    }
  }

  lemma CutCons(c: char, w: string, i: nat, k: nat)
    requires c as int < 256 && IsBytes(w) && k <= |w| && |EncodeByte(c)| <= i <= |EncodeByte(c)| + |Encode(w)|
    requires Encode(w)[..i - |EncodeByte(c)|] == Encode(w[..k]) && Encode(w)[i - |EncodeByte(c)|..] == Encode(w[k..])
    ensures var v := [c] + w;
      && IsBytes(v) && i <= |Encode(v)|
      && Encode(v)[..i] == Encode(v[..k + 1]) && Encode(v)[i..] == Encode(v[k + 1..])
  {
    EncodeCons(c, w);
    EncodeCons(c, w[..k]);
    hide EncodeByte, Encode;
    CutConcat(EncodeByte(c), Encode(w), i);
    assert ([c] + w)[..k + 1] == [c] + w[..k] && ([c] + w)[k + 1..] == w[k..];
  }

  lemma EncodeNothing()
    ensures Encode([]) == []
  {
  }

  /** Between two slashes, or a slash and the end, a normal href holds the encoding of text. */
  lemma PieceIsNormal(h: string, a: nat, b: nat)
    requires IsNormal(h) && a <= b <= |h|
    requires (a == 0 || h[a - 1] == '/') && (b < |h| ==> h[b] == '/')
    ensures IsNormal(h[a..b])
  {
    var v := Unescape(h);
    hide Encode, Unescape, Valid;
    var j := CutAtSlash(v, b);
    NormalOfEncode(v[..j]);
    if a == 0 {
      assert h[a..b] == h[..b];
    } else {
      LastPieceIsNormal(h[..b], v[..j], a);
      assert h[..b][a..] == h[a..b];
    }
  }

  lemma LastPieceIsNormal(h: string, v: string, a: nat)
    requires IsBytes(v) && Valid(v) && h == Encode(v) && 0 < a <= |h| && h[a - 1] == '/'
    ensures IsNormal(h[a..])
  {
    hide Encode, Unescape, Valid;
    var k := CutAtSlash(v, a - 1);
    assert h[a - 1..][0] == '/' && h[a - 1..][1..] == h[a..];
    SlashFirst(v[k..]);
    NormalOfEncode(v[k..][1..]);
  }

  lemma NormalOfEncode(v: string)
    requires IsBytes(v) && Valid(v)
    ensures IsNormal(Encode(v))
  {
    EncodeIsBytes(v);
    UnescapeEncode(v);
  }

  lemma SlashFirst(v: string)
    requires IsBytes(v) && Valid(v) && Encode(v) != [] && Encode(v)[0] == '/'
    ensures v != [] && v[0] == '/' && Valid(v[1..]) && Encode(v)[1..] == Encode(v[1..])
  {
    SlashStaysAlone(v[0]);
    assert CharLen(v) == 1;
  }

  lemma SplitAtTail(h: string) returns (a: nat, b: nat)
    ensures a <= b <= |h| && h[..b] == TrimSlashes(h) && h[a..b] == Tail(TrimSlashes(h))
    ensures b < |h| ==> h[b] == '/'
    ensures if '/' in TrimSlashes(h) then a > 0 && h[a - 1] == '/' && ParentCollection(h) == h[..a]
            else a == 0 && ParentCollection(h) == "/"
    ensures TrailingSlashes(h) == h[b..]
  {
    b := |TrimSlashes(h)|;
    a := b - |Tail(TrimSlashes(h))|;
  }

  lemma ThreePieces(h: string, a: nat, b: nat)
    requires a <= b <= |h|
    ensures h == h[..a] + h[a..b] + h[b..]
    ensures a == 0 ==> h != "/" + h[a..b] + h[b..]
  {
    if a == 0 {
      assert |"/" + h[a..b] + h[b..]| == |h| + 1;
    }
  }

  lemma NormalIsKept(tail: string)
    requires IsNormal(tail)
    ensures IsBytes(Decode(tail)) && Encode(Decode(tail)) == tail
  {
    LossyOfValid(Unescape(tail));
    hide Lossy, Unescape, Encode, Valid;
  }

  /** A normal href is its parent collection, the encoding of its last component and its trailing slashes, exactly
      when it has a slash in front of that component. The root is not, nor is a href without a leading slash. */
  lemma ParentAndComponent(h: string)
    requires IsNormal(h)
    ensures IsBytes(LastPathComponent(h))
    ensures h == ParentCollection(h) + Encode(LastPathComponent(h)) + TrailingSlashes(h) <==> '/' in TrimSlashes(h)
  {
    assert LastPathComponent(h) == Decode(Tail(TrimSlashes(h)));
    hide *;
    var a, b := SplitAtTail(h);
    PieceIsNormal(h, a, b);
    NormalIsKept(h[a..b]);
    ThreePieces(h, a, b);
  }
}
