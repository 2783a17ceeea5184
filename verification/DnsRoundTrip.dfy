/** Which names come back from their encoding (`encode_qname` and `read_name`, src/exchange_ews/autodiscover.rs). */
module DnsRoundTrip {
  import opened Wrappers
  import opened Text
  import opened Utf8
  import opened DnsNames

  // ----- what reading can return

  const SHORTEST_LOST := 0xC0

  /** One of the 192 bytes from index `i` on is a dot. */
  predicate DotFrom(s: string, i: nat)
    requires i + SHORTEST_LOST <= |s|
  {
    '.' in s[i..i + SHORTEST_LOST]
  }

  /** Nowhere do 192 bytes follow one another without a dot. */
  predicate ShortRuns(s: string) {
    forall i: nat :: i + SHORTEST_LOST <= |s| ==> DotFrom(s, i)
  }

  lemma ShortRunsGrow(name: string, piece: string)
    requires ShortRuns(name) && |piece| < SHORTEST_LOST
    ensures ShortRuns(AddLabel(name, piece))
  {
    var s := AddLabel(name, piece);
    forall i: nat | i + SHORTEST_LOST <= |s|
      ensures DotFrom(s, i)
    {
      if i + SHORTEST_LOST <= |name| {
        assert DotFrom(name, i);
        assert s[i..i + SHORTEST_LOST] == name[i..i + SHORTEST_LOST];
      } else {
        assert s[|name|] == s[i..i + SHORTEST_LOST][|name| - i];
      }
    }
  }

  /** Whatever a buffer holds, the length bytes of its labels keep them short. */
  lemma {:induction false} ReadHasShortRuns(buf: string, cursor: nat, hops: nat, name: string)
    requires IsBytes(buf) && hops <= MAX_HOPS && ShortRuns(name)
    ensures var r := ReadFrom(buf, cursor, hops, name); r.Some? ==> ShortRuns(r.value)
    decreases MAX_HOPS - hops, |buf| - cursor
  {
    hide ReadFrom, ShortRuns, Valid, AddLabel, IsBytes;
    if cursor >= |buf| {
      ReadBeyond(buf, cursor, hops, name);
    } else {
      ReadStep(buf, cursor, hops, name);
      ByteIsSmall(buf, cursor);
      var len := ByteAt(buf, cursor);
      if IsPointer(len) {
        if cursor + 1 < |buf| && hops < MAX_HOPS {
          ReadHasShortRuns(buf, (len - 0xC0) * 256 + ByteAt(buf, cursor + 1), hops + 1, name);
        }
      } else if len != 0 && cursor + 1 + len <= |buf| {
        var piece := buf[cursor + 1..cursor + 1 + len];
        ShortRunsGrow(name, piece);
        ReadHasShortRuns(buf, cursor + 1 + len, hops, AddLabel(name, piece));
      }
    }
  }

  lemma ByteIsSmall(buf: string, i: nat)
    requires IsBytes(buf) && i < |buf|
    ensures 0 <= ByteAt(buf, i) < 256
  {
  }

  // ----- lists of labels

  /** The labels of a name, which is text: pieces between dots. */
  predicate IsPiece(l: string) {
    l != [] && '.' !in l && IsBytes(l) && Valid(l)
  }

  predicate ArePieces(labels: seq<string>) {
    forall i :: 0 <= i < |labels| ==> IsPiece(labels[i])
  }

  predicate AreShort(labels: seq<string>) {
    forall i :: 0 <= i < |labels| ==> |labels[i]| < SHORTEST_LOST
  }

  /** Labels after a name are that name, a dot, and the labels on their own. */
  lemma {:induction false} JoinAfter(name: string, labels: seq<string>)
    requires name != [] && ArePieces(labels)
    ensures Join(name, labels) == if labels == [] then name else name + (['.'] + Join([], labels))
    decreases |labels|
  {
    hide IsPiece, AddLabel;
    if labels != [] {
      var a, more := labels[0], labels[1..];
      PieceIsNotEmpty(a);
      Added(name, a);
      JoinAfter(AddLabel(name, a), more);
      JoinAfter(a, more);
      var b := ['.'] + Join([], more);
      hide Join;
      Associative(name, ['.'], a);
      Associative(name, ['.'] + a, b);
      Associative(['.'], a, b);
    }
  }

  lemma Added(name: string, piece: string)
    requires piece != []
    ensures AddLabel([], piece) == piece
    ensures AddLabel(name, piece) != []
    ensures name != [] ==> AddLabel(name, piece) == name + ['.'] + piece
  {
  }

  lemma PieceIsNotEmpty(l: string)
    requires IsPiece(l)
    ensures l != [] && '.' !in l
  {
  }

  lemma JoinBegins(labels: seq<string>)
    requires ArePieces(labels) && labels != []
    ensures
      Join([], labels)
      == (if |labels| == 1 then labels[0] else labels[0] + (['.'] + Join([], labels[1..])))
  {
    hide IsPiece, AddLabel;
    PieceIsNotEmpty(labels[0]);
    Added([], labels[0]);
    JoinAfter(labels[0], labels[1..]);
  }

  lemma PartBehind(first: string, rest: string, m: nat, n: nat)
    requires m + n <= |rest|
    ensures
      var s := first + (['.'] + rest);
      |first| + 1 + m + n <= |s| && s[|first| + 1 + m..|first| + 1 + m + n] == rest[m..m + n]
  {
  }

  /** Every label stands in the joined name. */
  lemma {:induction false} LabelInJoin(labels: seq<string>, i: nat) returns (k: nat)
    requires ArePieces(labels) && i < |labels|
    ensures k + |labels[i]| <= |Join([], labels)| && Join([], labels)[k..k + |labels[i]|] == labels[i]
    decreases |labels|
  {
    hide IsPiece, Join;
    var first, more := labels[0], labels[1..];
    JoinBegins(labels);
    if i == 0 {
      k := 0;
    } else {
      assert more[i - 1] == labels[i];
      var m := LabelInJoin(more, i - 1);
      k := |first| + 1 + m;
      PartBehind(first, Join([], more), m, |labels[i]|);
    }
  }

  lemma LongRun(s: string, k: nat, l: string)
    requires k + |l| <= |s| && s[k..k + |l|] == l && '.' !in l && |l| >= SHORTEST_LOST
    ensures !ShortRuns(s)
  {
    assert s[k..k + SHORTEST_LOST] == l[..SHORTEST_LOST];
    assert !DotFrom(s, k);
  }

  lemma ShortPiecesAreLabels(labels: seq<string>)
    requires ArePieces(labels) && AreShort(labels)
    ensures AreLabels(labels)
  {
    hide Valid, IsBytes;
  }

  /** Wherever an encoded name stands, reading gives it back exactly when its labels are short: the length byte of a
      label of 192 bytes or more is taken for a pointer, for the end of the name, or for a shorter length. */
  lemma EncodedLabelsReadBack(buf: string, cursor: nat, hops: nat, labels: seq<string>)
    requires IsBytes(buf) && hops <= MAX_HOPS && ArePieces(labels)
    requires HasAt(buf, cursor, NameBytes(labels))
    ensures ReadFrom(buf, cursor, hops, []) == Some(Join([], labels)) <==> AreShort(labels)
  {
    hide ReadFrom, HasAt, IsPiece, NameBytes;
    if AreShort(labels) {
      ShortPiecesAreLabels(labels);
      EncodedNameReads(buf, cursor, hops, [], labels);
    } else {
      var i :| 0 <= i < |labels| && |labels[i]| >= SHORTEST_LOST;
      PieceIsNotEmpty(labels[i]);
      var k := LabelInJoin(labels, i);
      LongRun(Join([], labels), k, labels[i]);
      ReadHasShortRuns(buf, cursor, hops, []);
    }
  }

  // ----- names

  /** No dot at either end, and no two dots in a row. */
  predicate NoEmptyLabel(q: string) {
    q != [] ==>
      && q[0] != '.' && q[|q| - 1] != '.'
      && forall i :: 0 <= i < |q| - 1 ==> !(q[i] == '.' && q[i + 1] == '.')
  }

  lemma CutParts(q: string)
    ensures
      var first := BeforeFirst(q, '.');
      if |first| == |q| then first == q
      else |first| < |q| && q[|first|] == '.' && q == first + (['.'] + q[|first| + 1..])
  {
    var first := BeforeFirst(q, '.');
    if |first| < |q| {
      assert q[..|first| + 1] == first + ['.'];
      assert q == q[..|first| + 1] + q[|first| + 1..];
      Associative(first, ['.'], q[|first| + 1..]);
    }
  }

  lemma CutAtDot(q: string)
    requires q != [] && NoEmptyLabel(q)
    ensures
      var first := BeforeFirst(q, '.');
      first != [] && (|first| < |q| ==> q[|first| + 1..] != [] && NoEmptyLabel(q[|first| + 1..]))
  {
    CutParts(q);
    hide BeforeFirst;
    var first := BeforeFirst(q, '.');
    if |first| < |q| {
      DotIsInside(q, |first|);
      PartHasNoEmptyLabel(q, |first| + 1);
    }
  }

  lemma DotIsInside(q: string, i: nat)
    requires NoEmptyLabel(q) && i < |q| && q[i] == '.'
    ensures 0 < i < |q| - 1 && q[i + 1] != '.'
  {
  }

  lemma PartHasNoEmptyLabel(q: string, a: nat)
    requires NoEmptyLabel(q) && a < |q| && q[a] != '.'
    ensures NoEmptyLabel(q[a..])
  {
    var rest := q[a..];
    forall i | 0 <= i < |rest| - 1
      ensures !(rest[i] == '.' && rest[i + 1] == '.')
    {
      assert rest[i] == q[a + i] && rest[i + 1] == q[a + i + 1];
    }
  }

  lemma DotsAround(a: string, b: string)
    requires a != [] && '.' !in a && b != [] && NoEmptyLabel(b)
    ensures NoEmptyLabel(a + (['.'] + b))
  {
    var s := a + (['.'] + b);
    forall i | 0 <= i < |s| - 1
      ensures !(s[i] == '.' && s[i + 1] == '.')
    {
      if i < |a| {
        assert s[i] == a[i];
      } else if i > |a| {
        assert s[i] == b[i - |a| - 1] && s[i + 1] == b[i - |a|];
      }
    }
  }

  lemma {:induction false} JoinHasNoEmptyLabel(labels: seq<string>)
    requires ArePieces(labels)
    ensures NoEmptyLabel(Join([], labels)) && (labels != [] ==> Join([], labels) != [])
    decreases |labels|
  {
    hide IsPiece, NoEmptyLabel;
    if labels == [] {
      EmptyName();
    } else {
      PieceIsNotEmpty(labels[0]);
      JoinAfter(labels[0], labels[1..]);
      JoinHasNoEmptyLabel(labels[1..]);
      if labels[1..] == [] {
        OneLabel(labels[0]);
      } else {
        DotsAround(labels[0], Join([], labels[1..]));
      }
    }
  }

  lemma EmptyName()
    ensures NoEmptyLabel("")
  {
  }

  lemma OneLabel(l: string)
    requires '.' !in l
    ensures NoEmptyLabel(l)
  {
  }

  lemma DotIsAscii(s: string, i: nat)
    requires Valid(s) && i < |s| && s[i] == '.'
    ensures Valid(s[..i]) && Valid(s[i + 1..])
  {
    ValidCut(s, i);
    hide Valid;
    AfterAscii(s[i..]);
    assert s[i..][1..] == s[i + 1..];
  }

  lemma AfterAscii(s: string)
    requires Valid(s) && s != [] && s[0] == '.'
    ensures Valid(s[1..])
  {
  }

  /** The labels of text are text. */
  lemma {:induction false} LabelsArePieces(s: string)
    requires IsBytes(s) && Valid(s)
    ensures ArePieces(Labels(s))
    decreases |s|
  {
    hide Valid, IsBytes, Labels, BeforeFirst;
    CutParts(s);
    LabelsStep(s);
    var first := BeforeFirst(s, '.');
    if |first| < |s| {
      assert s[..|first|] == first && s[0..|first|] == first && s[|first| + 1..|s|] == s[|first| + 1..];
      DotIsAscii(s, |first|);
      BytesOfPart(s, 0, |first|);
      BytesOfPart(s, |first| + 1, |s|);
      LabelsArePieces(s[|first| + 1..]);
    }
  }

  lemma BytesOfPart(s: string, a: nat, b: nat)
    requires IsBytes(s) && a <= b <= |s|
    ensures IsBytes(s[a..b])
  {
  }

  lemma {:induction false} TrimDotsOf(q: string)
    ensures TrimDots(q) <= q
    ensures NoEmptyLabel(q) ==> TrimDots(q) == q
    ensures IsBytes(q) && Valid(q) ==> IsBytes(TrimDots(q)) && Valid(TrimDots(q))
  {
    hide Valid, IsBytes;
    if q != [] && q[|q| - 1] == '.' {
      var front := q[..|q| - 1];
      TrimDotsOf(front);
      if IsBytes(q) && Valid(q) {
        DotIsAscii(q, |q| - 1);
        BytesOfPart(q, 0, |q| - 1);
      }
    }
  }

  /** `Labels`, one label at a time. */
  lemma LabelsStep(s: string)
    ensures
      var first := BeforeFirst(s, '.');
      && |first| <= |s|
      && Labels(s)
         == (if first == [] then [] else [first]) + (if |first| == |s| then [] else Labels(s[|first| + 1..]))
  {
    hide BeforeFirst;
  }

  /** Splitting at dots and joining again changes nothing where no label is empty. */
  lemma {:induction false} JoinOfLabels(q: string)
    requires IsBytes(q) && Valid(q) && NoEmptyLabel(q)
    ensures Join([], Labels(q)) == q
    decreases |q|
  {
    hide Valid, IsBytes, NoEmptyLabel, IsPiece, Labels, BeforeFirst, AddLabel;
    LabelsStep(q);
    if q == [] {
      assert Labels(q) == [];
    } else {
      CutAtDot(q);
      CutParts(q);
      var first := BeforeFirst(q, '.');
      Added([], first);
      LabelsArePieces(q);
      if |first| < |q| {
        var rest := q[|first| + 1..];
        DotIsAscii(q, |first|);
        BytesOfPart(q, |first| + 1, |q|);
        assert q[|first| + 1..|q|] == rest;
        JoinOfLabels(rest);
        LabelsArePieces(rest);
        assert Labels(q)[1..] == Labels(rest);
        JoinAfter(first, Labels(rest));
      } else {
        assert Labels(q)[1..] == [];
      }
    }
  }

  lemma {:induction false} LabelInName(s: string, i: nat) returns (k: nat)
    requires i < |Labels(s)|
    ensures k + |Labels(s)[i]| <= |s| && s[k..k + |Labels(s)[i]|] == Labels(s)[i]
    decreases |s|
  {
    hide Labels, BeforeFirst;
    LabelsStep(s);
    var first := BeforeFirst(s, '.');
    if first != [] && i == 0 {
      CutParts(s);
      k := 0;
    } else {
      var rest := s[|first| + 1..];
      var j: nat := if first == [] then i else i - 1;
      assert Labels(s)[i] == Labels(rest)[j];
      var m := LabelInName(rest, j);
      k := |first| + 1 + m;
      CutParts(s);
      PartBehind(first, rest, m, |Labels(rest)[j]|);
    }
  }

  lemma ShortRunsHaveShortLabels(q: string)
    requires ShortRuns(q)
    ensures AreShort(Labels(TrimDots(q)))
  {
    hide ShortRuns, TrimDots, BeforeFirst, Labels;
    var s := TrimDots(q);
    TrimDotsOf(q);
    forall i | 0 <= i < |Labels(s)|
      ensures |Labels(s)[i]| < SHORTEST_LOST
    {
      var k := LabelInName(s, i);
      var l := Labels(s)[i];
      assert q[k..k + |l|] == s[k..k + |l|];
      if |l| >= SHORTEST_LOST {
        LongRun(q, k, l);
      }
    }
  }

  lemma {:induction false} NameBytesAreBytes(labels: seq<string>)
    requires ArePieces(labels)
    ensures IsBytes(NameBytes(labels))
  {
    hide Valid;
    if labels != [] {
      NameBytesAreBytes(labels[1..]);
    }
  }

  /** `read_name` inverts `encode_qname` on exactly the names without empty labels or a trailing dot, and without 192
      bytes in a row between dots. */
  lemma EncodedNameReadsBack(q: string)
    requires IsBytes(q) && Valid(q)
    ensures ArePieces(Labels(TrimDots(q))) && IsBytes(NameBytes(Labels(TrimDots(q))))
    ensures ReadFrom(NameBytes(Labels(TrimDots(q))), 0, 0, []) == Some(q) <==> NoEmptyLabel(q) && ShortRuns(q)
  {
    hide Valid, IsBytes, ReadFrom, NoEmptyLabel, ShortRuns, TrimDots, Labels, IsPiece, NameBytes;
    var labels := Labels(TrimDots(q));
    var buf := NameBytes(labels);
    TrimDotsOf(q);
    LabelsArePieces(TrimDots(q));
    NameBytesAreBytes(labels);
    assert buf[0..|buf|] == buf;
    EncodedLabelsReadBack(buf, 0, 0, labels);
    JoinHasNoEmptyLabel(labels);
    if NoEmptyLabel(q) {
      JoinOfLabels(q);
    }
    EmptyHasShortRuns();
    ReadHasShortRuns(buf, 0, 0, []);
    if ShortRuns(q) {
      ShortRunsHaveShortLabels(q);
    }
  }

  lemma EmptyHasShortRuns()
    ensures ShortRuns("")
  {
  }
}
