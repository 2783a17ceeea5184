/** The filter in front of the DAV parser (src/dav/parse.rs): a reader that drops the control characters that XML
    forbids, compacting the caller's buffer in place. */
module ControlStripping {
  type Byte = b: int | 0 <= b < 256

  /** `is_xml_illegal_control`. */
  predicate IsXmlIllegalControl(b: Byte) {
    b <= 0x08 || b == 0x0b || b == 0x0c || 0x0e <= b <= 0x1f
  }

  /** The bytes that are not forbidden, in order. */
  function Strip(s: seq<Byte>): (r: seq<Byte>)
    ensures |r| <= |s|
  {
    if s == [] then []
    else
      var front := Strip(s[..|s| - 1]);
      if IsXmlIllegalControl(s[|s| - 1]) then front else front + [s[|s| - 1]]
  }

  lemma {:induction false} StripConcat(a: seq<Byte>, b: seq<Byte>)
    ensures Strip(a + b) == Strip(a) + Strip(b)
  {
    if b == [] {
      assert a + b == a && Strip(a) + [] == Strip(a);
    } else {
      var front, last := b[..|b| - 1], b[|b| - 1];
      StripConcat(a, front);
      assert (a + b)[..|a + b| - 1] == a + front;
      assert Strip(a) + (Strip(front) + [last]) == Strip(a) + Strip(front) + [last];
    }
  }

  /** Only allowed bytes are left, and what is allowed already is left alone. */
  lemma {:induction false} StripLeavesAllowed(s: seq<Byte>)
    ensures forall i :: 0 <= i < |Strip(s)| ==> !IsXmlIllegalControl(Strip(s)[i])
    ensures (forall i :: 0 <= i < |s| ==> !IsXmlIllegalControl(s[i])) <==> Strip(s) == s
  {
    if s != [] {
      var front, last := s[..|s| - 1], s[|s| - 1];
      StripLeavesAllowed(front);
      assert s == front + [last];
    }
  }

  /** A byte is kept exactly when it is none of the control characters that section 2.2 of XML 1.0 leaves out: tab, line
      feed, carriage return and everything from 0x20 on. */
  lemma ByteIsKept(b: Byte)
    ensures Strip([b]) == (if b == 0x09 || b == 0x0A || b == 0x0D || b >= 0x20 then [b] else [])
  {
    assert [b][..0] == [] && Strip([]) == [];
  }

  /** `strip_ascii_control_chars`. */
  method StripAsciiControlChars(body: seq<Byte>) returns (r: seq<Byte>)
    ensures r == Strip(body)
  {
    if exists i :: 0 <= i < |body| && IsXmlIllegalControl(body[i]) {
      r := [];
      for i := 0 to |body|
        invariant r == Strip(body[..i])
      {
        assert body[..i + 1][..i] == body[..i];
        if !IsXmlIllegalControl(body[i]) {
          r := r + [body[i]];
        }
      }
      assert body[..|body|] == body;
    } else {
      StripLeavesAllowed(body);
      r := body;
    }
  }

  // ----- the reader

  /** The reader underneath: it delivers its bytes in chunks of any size. */
  class Source {
    const data: seq<Byte>
    var pos: nat

    ghost predicate Valid()
      reads this
    {
      pos <= |data|
    }

    ghost function Rest(): seq<Byte>
      requires Valid()
      reads this
    {
      data[pos..]
    }

    constructor (data: seq<Byte>)
      ensures Valid() && this.data == data && Rest() == data
    {
      this.data, pos := data, 0;
    }

    /** A read fills some front part of the buffer, and none of it only at the end or when it has no room. */
    method Read(buf: array<Byte>) returns (n: nat)
      requires Valid()
      modifies this`pos, buf
      ensures Valid() && n <= buf.Length
      ensures n <= |old(Rest())| && buf[..n] == old(Rest())[..n] && Rest() == old(Rest())[n..]
      ensures n == 0 ==> buf.Length == 0 || old(Rest()) == []
    {
      var limit := if buf.Length <= |data| - pos then buf.Length else |data| - pos;
      if limit == 0 {
        return 0;
      }
      n :| 1 <= n <= limit;
      for i := 0 to n
        invariant pos == old(pos)
        invariant forall k :: 0 <= k < i ==> buf[k] == data[pos + k]
      {
        buf[i] := data[pos + i];
      }
      pos := pos + n;
    }
  }

  /** The compaction of one chunk: the kept bytes move to the front, in order. */
  method Compact(buf: array<Byte>, n: nat) returns (write: nat)
    requires n <= buf.Length
    modifies buf
    ensures write <= n
    ensures buf[..write] == Strip(old(buf[..n]))
  {
    ghost var was := buf[..n];
    write := 0;
    for read := 0 to n
      invariant write <= read
      invariant buf[..write] == Strip(was[..read])
      invariant forall k :: read <= k < n ==> buf[k] == was[k]
    {
      assert was[..read + 1][..read] == was[..read];
      var b := buf[read];
      if !IsXmlIllegalControl(b) {
        buf[write] := b;
        write := write + 1;
      }
    }
    assert was[..n] == was;
  }

  class ControlStrippingReader {
    const inner: Source

    constructor (inner: Source)
      ensures this.inner == inner
    {
      this.inner := inner;
    }

    /** `ControlStrippingReader::read`. What comes out, and then what the rest comes to, is what was to come; and
        nothing comes out only at the end, never because a chunk held forbidden bytes alone. */
    method Read(buf: array<Byte>) returns (n: nat)
      requires inner.Valid()
      modifies inner`pos, buf
      ensures inner.Valid() && n <= buf.Length
      ensures Strip(old(inner.Rest())) == buf[..n] + Strip(inner.Rest())
      ensures n == 0 ==> buf.Length == 0 || inner.Rest() == []
      ensures n > 0 ==> |inner.Rest()| < |old(inner.Rest())|
    {
      while true
        invariant inner.Valid()
        invariant Strip(inner.Rest()) == Strip(old(inner.Rest()))
        invariant |inner.Rest()| <= |old(inner.Rest())|
        decreases |inner.Rest()|
      {
        ghost var before := inner.Rest();
        var count := inner.Read(buf);
        assert before == before[..count] + before[count..];
        StripConcat(before[..count], before[count..]);
        if count == 0 {
          assert buf[..0] == [] && before[..0] == [];
          return 0;
        }
        var write := Compact(buf, count);
        if write > 0 {
          return write;
        }
      }
    }
  }

  lemma NothingToStrip()
    ensures Strip([]) == []
  {
  }

  /** A caller that reads to the end, through buffers of whatever sizes it likes, gets the stripped source. */
  method ReadToEnd(reader: ControlStrippingReader, sizes: nat -> nat) returns (out: seq<Byte>)
    requires reader.inner.Valid()
    modifies reader.inner`pos
    ensures reader.inner.Valid() && reader.inner.Rest() == []
    ensures out == Strip(old(reader.inner.Rest()))
  {
    NothingToStrip();
    hide Strip;
    out := [];
    var calls := 0;
    while true
      invariant reader.inner.Valid()
      invariant out + Strip(reader.inner.Rest()) == Strip(old(reader.inner.Rest()))
      decreases |reader.inner.Rest()|
    {
      ghost var before := Strip(reader.inner.Rest());
      var buf := new Byte[sizes(calls) + 1];
      var n := reader.Read(buf);
      assert out + before == out + buf[..n] + Strip(reader.inner.Rest());
      if n == 0 {
        assert out + [] + [] == out;
        return;
      }
      out := out + buf[..n];
      calls := calls + 1;
    }
  }
}
