/** The SRV lookup's DNS messages (src/exchange_ews/autodiscover.rs): names with compression, section 4.1.4 of
    RFC 1035, and the answers of a response. Bytes are characters below 256. */
module DnsNames {
  import opened Wrappers
  import opened Text
  import opened Utf8

  datatype SrvRecord = SrvRecord(priority: int, weight: int, port: int, target: string)

  function ByteAt(buf: string, i: nat): (b: int)
    requires i < |buf|
    ensures b >= 0
    ensures IsBytes(buf) ==> b < 256
  {
    buf[i] as int
  }

  function U16At(buf: string, i: nat): nat
    requires i + 1 < |buf|
  {
    256 * ByteAt(buf, i) + ByteAt(buf, i + 1)
  }

  /** The two high bits are set: `(len & 0xC0) == 0xC0`. */
  predicate IsPointer(len: int) {
    len >= 0xC0
  }

  // ----- names

  /** The rest of `skip_name`, from the cursor on. */
  function SkipFrom(buf: string, cursor: nat): (r: Option<nat>)
    requires IsBytes(buf)
    ensures r.Some? ==> cursor < r.value <= |buf| + 1
    decreases |buf| - cursor
  {
    if cursor >= |buf| then None
    else
      var len := ByteAt(buf, cursor);
      if len == 0 then Some(cursor + 1)
      else if IsPointer(len) then Some(cursor + 2)
      else SkipFrom(buf, cursor + 1 + len)
  }

  /** `skip_name`. */
  method SkipName(buf: string, start: nat) returns (r: Option<nat>)
    requires IsBytes(buf)
    ensures r == SkipFrom(buf, start)
  {
    var cursor := start;
    while true
      invariant SkipFrom(buf, cursor) == SkipFrom(buf, start)
      decreases |buf| - cursor
    {
      if cursor >= |buf| {
        return None;
      }
      var len := ByteAt(buf, cursor);
      if len == 0 {
        return Some(cursor + 1);
      }
      if IsPointer(len) {
        return Some(cursor + 2);
      }
      cursor := cursor + 1 + len;
    }
  }

  const MAX_HOPS := 8

  function AddLabel(name: string, piece: string): string {
    if name == [] then piece else name + ['.'] + piece
  }

  /** The rest of `read_name`, from the cursor on, after some pointers and with some labels read. */
  function ReadFrom(buf: string, cursor: nat, hops: nat, name: string): Option<string>
    requires IsBytes(buf) && hops <= MAX_HOPS
    decreases MAX_HOPS - hops, |buf| - cursor
  {
    if cursor >= |buf| then None
    else
      var len := ByteAt(buf, cursor);
      if len == 0 then Some(name)
      else if IsPointer(len) then
        if cursor + 1 >= |buf| || hops + 1 > MAX_HOPS then None
        else ReadFrom(buf, (len - 0xC0) * 256 + ByteAt(buf, cursor + 1), hops + 1, name)
      else if cursor + 1 + len > |buf| || !Valid(buf[cursor + 1..cursor + 1 + len]) then None
      else ReadFrom(buf, cursor + 1 + len, hops, AddLabel(name, buf[cursor + 1..cursor + 1 + len]))
  }

  /** One round of the loop. */
  lemma ReadStep(buf: string, cursor: nat, hops: nat, name: string)
    requires IsBytes(buf) && hops <= MAX_HOPS && cursor < |buf|
    ensures var len := ByteAt(buf, cursor);
      var end := cursor + 1 + len;
      ReadFrom(buf, cursor, hops, name) ==
        if len == 0 then Some(name)
        else if IsPointer(len) then
          if cursor + 1 >= |buf| || hops + 1 > MAX_HOPS then None
          else ReadFrom(buf, (len - 0xC0) * 256 + ByteAt(buf, cursor + 1), hops + 1, name)
        else if end > |buf| || !Valid(buf[cursor + 1..end]) then None
        else ReadFrom(buf, end, hops, AddLabel(name, buf[cursor + 1..end]))
  {
    hide Valid, AddLabel;
  }

  lemma ReadBeyond(buf: string, cursor: nat, hops: nat, name: string)
    requires IsBytes(buf) && hops <= MAX_HOPS && cursor >= |buf|
    ensures ReadFrom(buf, cursor, hops, name) == None
  {
  }

  /** `read_name`: it ends on every buffer, since it follows at most eight pointers and moves forward in between. */
  method ReadName(buf: string, start: nat) returns (r: Option<string>)
    requires IsBytes(buf)
    ensures r == ReadFrom(buf, start, 0, [])
  {
    hide Valid, IsBytes, ReadFrom;
    var name: string := [];
    var cursor: nat := start;
    var hops: nat := 0;
    while true
      invariant 0 <= hops <= MAX_HOPS
      invariant ReadFrom(buf, cursor, hops, name) == ReadFrom(buf, start, 0, [])
      decreases MAX_HOPS - hops, |buf| - cursor
    {
      if cursor >= |buf| {
        ReadBeyond(buf, cursor, hops, name);
        return None;
      }
      ReadStep(buf, cursor, hops, name);
      var len := ByteAt(buf, cursor);
      if len == 0 {
        return Some(name);
      }
      if IsPointer(len) {
        if cursor + 1 >= |buf| {
          return None;
        }
        var pointer: nat := (len - 0xC0) * 256 + ByteAt(buf, cursor + 1);
        if hops + 1 > MAX_HOPS {
          return None;
        }
        hops := hops + 1;
        cursor := pointer;
      } else {
        cursor := cursor + 1;
        var end := cursor + len;
        if end > |buf| {
          return None;
        }
        if !Valid(buf[cursor..end]) {
          return None;
        }
        ghost var was := name;
        if name != [] {
          name := name + ['.'];
        }
        name := name + buf[cursor..end];
        assert name == AddLabel(was, buf[cursor..end]);
        cursor := end;
      }
    }
  }

  // ----- encoding a name

  /** `trim_end_matches('.')`. */
  function TrimDots(s: string): string {
    if s != [] && s[|s| - 1] == '.' then TrimDots(s[..|s| - 1]) else s
  }

  /** The pieces between dots that are not empty. */
  function Labels(s: string): (r: seq<string>)
    ensures forall i :: 0 <= i < |r| ==> r[i] != [] && '.' !in r[i]
    decreases |s|
  {
    var first := BeforeFirst(s, '.');
    var rest := if |first| == |s| then [] else Labels(s[|first| + 1..]);
    if first == [] then rest else [first] + rest
  }

  /** A label with its length in front; the cast to `u8` keeps the low 8 bits. */
  function LabelBytes(piece: string): string {
    [(|piece| % 256) as char] + piece
  }

  function NameBytes(labels: seq<string>): string {
    if labels == [] then [0 as char] else LabelBytes(labels[0]) + NameBytes(labels[1..])
  }

  function LabelsBytes(labels: seq<string>): string {
    if labels == [] then [] else LabelsBytes(labels[..|labels| - 1]) + LabelBytes(labels[|labels| - 1])
  }

  lemma {:induction false} NameBytesIs(labels: seq<string>)
    ensures NameBytes(labels) == LabelsBytes(labels) + [0 as char]
  {
    if labels != [] {
      NameBytesIs(labels[1..]);
      LabelsBytesCons(labels);
      var head, tail := LabelBytes(labels[0]), LabelsBytes(labels[1..]);
      assert head + (tail + [0 as char]) == head + tail + [0 as char];
    }
  }

  lemma {:induction false} LabelsBytesCons(labels: seq<string>)
    requires labels != []
    ensures LabelsBytes(labels) == LabelBytes(labels[0]) + LabelsBytes(labels[1..])
  {
    var n := |labels|;
    if n == 1 {
      assert labels[..0] == [] && labels[1..] == [] && LabelsBytes([]) == [];
      assert [] + LabelBytes(labels[0]) == LabelBytes(labels[0]) + [];
    } else {
      LabelsBytesCons(labels[..n - 1]);
      assert labels[..n - 1][1..] == labels[1..][..n - 2] && labels[1..][n - 2] == labels[n - 1];
      var a, b, c := LabelBytes(labels[0]), LabelsBytes(labels[1..][..n - 2]), LabelBytes(labels[n - 1]);
      assert a + (b + c) == a + b + c;
    }
  }

  /** `encode_qname`. */
  method EncodeQname(out: string, qname: string) returns (r: string)
    ensures r == out + NameBytes(Labels(TrimDots(qname)))
  {
    hide Labels, LabelsBytes, TrimDots;
    r := out;
    var labels := Labels(TrimDots(qname));
    NoLabelBytes(out);
    for i := 0 to |labels|
      invariant r == out + LabelsBytes(labels[..i])
    {
      var piece := labels[i];
      ghost var was := r;
      r := r + [(|piece| % 256) as char];
      r := r + piece;
      Associative(was, [(|piece| % 256) as char], piece);
      LabelsBytesAppend(labels, i);
      Associative(out, LabelsBytes(labels[..i]), LabelBytes(piece));
    }
    NameBytesIs(labels);
    assert labels[..|labels|] == labels;
    Associative(out, LabelsBytes(labels), [0 as char]);
    r := r + [0 as char];
  }

  lemma NoLabelBytes(out: string)
    ensures out + LabelsBytes([]) == out
  {
  }

  lemma LabelsBytesAppend(labels: seq<string>, i: nat)
    requires i < |labels|
    ensures LabelsBytes(labels[..i + 1]) == LabelsBytes(labels[..i]) + LabelBytes(labels[i])
  {
    assert labels[..i + 1][..i] == labels[..i];
  }

  // ----- encoded names read back

  /** A label whose length byte is its length and is no pointer, and which is text. */
  predicate IsLabel(l: string) {
    1 <= |l| < 0xC0 && IsBytes(l) && Valid(l)
  }

  predicate AreLabels(labels: seq<string>) {
    forall i :: 0 <= i < |labels| ==> IsLabel(labels[i])
  }

  function Join(name: string, labels: seq<string>): string
    decreases |labels|
  {
    if labels == [] then name else Join(AddLabel(name, labels[0]), labels[1..])
  }

  /** The bytes at the cursor are the given ones. */
  predicate HasAt(buf: string, cursor: nat, bytes: string) {
    cursor + |bytes| <= |buf| && buf[cursor..cursor + |bytes|] == bytes
  }

  lemma HasParts(buf: string, cursor: nat, a: string, b: string)
    requires HasAt(buf, cursor, a + b)
    ensures HasAt(buf, cursor, a) && HasAt(buf, cursor + |a|, b)
  {
    var s := buf[cursor..cursor + |a + b|];
    assert s[..|a|] == a && s[|a|..] == b;
    assert buf[cursor..cursor + |a|] == s[..|a|];
    assert buf[cursor + |a|..cursor + |a| + |b|] == s[|a|..];
  }

  lemma LabelAt(buf: string, cursor: nat, piece: string)
    requires IsLabel(piece) && HasAt(buf, cursor, LabelBytes(piece))
    ensures cursor < |buf| && ByteAt(buf, cursor) == |piece|
    ensures cursor + 1 + |piece| <= |buf| && buf[cursor + 1..cursor + 1 + |piece|] == piece
  {
    HasParts(buf, cursor, [(|piece| % 256) as char], piece);
    assert buf[cursor] == buf[cursor..cursor + 1][0];
  }

  lemma LabelLength(piece: string)
    ensures |LabelBytes(piece)| == 1 + |piece|
  {
  }

  lemma ReadLabel(buf: string, cursor: nat, hops: nat, name: string, piece: string)
    requires IsBytes(buf) && hops <= MAX_HOPS && IsLabel(piece) && HasAt(buf, cursor, LabelBytes(piece))
    ensures ReadFrom(buf, cursor, hops, name) == ReadFrom(buf, cursor + 1 + |piece|, hops, AddLabel(name, piece))
    ensures SkipFrom(buf, cursor) == SkipFrom(buf, cursor + 1 + |piece|)
  {
    LabelAt(buf, cursor, piece);
    hide HasAt, LabelBytes, Valid, AddLabel;
  }

  lemma ReadEnd(buf: string, cursor: nat, hops: nat, name: string)
    requires IsBytes(buf) && hops <= MAX_HOPS && HasAt(buf, cursor, [0 as char])
    ensures ReadFrom(buf, cursor, hops, name) == Some(name)
    ensures SkipFrom(buf, cursor) == Some(cursor + 1)
  {
    assert buf[cursor] == buf[cursor..cursor + 1][0];
  }

  /** Wherever an encoded name stands in a message, reading gives its labels joined by dots. */
  lemma {:induction false} EncodedNameReads(buf: string, cursor: nat, hops: nat, name: string, labels: seq<string>)
    requires IsBytes(buf) && hops <= MAX_HOPS && AreLabels(labels)
    requires HasAt(buf, cursor, NameBytes(labels))
    ensures ReadFrom(buf, cursor, hops, name) == Some(Join(name, labels))
    decreases |labels|
  {
    hide HasAt, LabelBytes, IsLabel, AddLabel, ReadFrom;
    if labels == [] {
      ReadEnd(buf, cursor, hops, name);
    } else {
      HasParts(buf, cursor, LabelBytes(labels[0]), NameBytes(labels[1..]));
      ReadLabel(buf, cursor, hops, name, labels[0]);
      LabelLength(labels[0]);
      EncodedNameReads(buf, cursor + 1 + |labels[0]|, hops, AddLabel(name, labels[0]), labels[1..]);
    }
  }

  /** And skipping it lands just past it. */
  lemma {:induction false} EncodedNameSkips(buf: string, cursor: nat, labels: seq<string>)
    requires IsBytes(buf) && AreLabels(labels)
    requires HasAt(buf, cursor, NameBytes(labels))
    ensures SkipFrom(buf, cursor) == Some(cursor + |NameBytes(labels)|)
    decreases |labels|
  {
    hide HasAt, LabelBytes, IsLabel, SkipFrom, ReadFrom, AddLabel;
    if labels == [] {
      ReadEnd(buf, cursor, 0, []);
    } else {
      HasParts(buf, cursor, LabelBytes(labels[0]), NameBytes(labels[1..]));
      ReadLabel(buf, cursor, 0, [], labels[0]);
      LabelLength(labels[0]);
      EncodedNameSkips(buf, cursor + 1 + |labels[0]|, labels[1..]);
    }
  }

  /** A compressed name reads as what its pointer leads to, as long as pointers are left; skipping it takes two
      bytes. */
  lemma PointerReads(buf: string, cursor: nat, hops: nat, name: string, at: nat)
    requires IsBytes(buf) && hops < MAX_HOPS && at < 0x4000
    requires HasAt(buf, cursor, [(0xC0 + at / 256) as char, (at % 256) as char])
    ensures ReadFrom(buf, cursor, hops, name) == ReadFrom(buf, at, hops + 1, name)
    ensures SkipFrom(buf, cursor) == Some(cursor + 2)
  {
    var s := buf[cursor..cursor + 2];
    assert buf[cursor] == s[0] && buf[cursor + 1] == s[1];
  }

  /** A label of 256 bytes, or any multiple, is lost: its length byte is the end of the name. */
  lemma LongLabelIsLost(piece: string, labels: seq<string>)
    requires |piece| > 0 && |piece| % 256 == 0 && IsBytes(NameBytes([piece] + labels))
    ensures ReadFrom(NameBytes([piece] + labels), 0, 0, []) == Some([])
  {
    assert NameBytes([piece] + labels)[0] == 0 as char;
  }
}
