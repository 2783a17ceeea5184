/** Names in messages, section 4.1.4 of RFC 1035: in full, or with a pointer for the labels that stand elsewhere. */
module CompressedNames {
  import opened Wrappers
  import opened Utf8
  import opened DnsNames

  // ----- skipped

  /** A name that `skip_name` passes, wherever it stands in a message. */
  ghost predicate IsPassed(name: string) {
    forall buf: string, cursor: nat ::
      IsBytes(buf) && HasAt(buf, cursor, name) ==> SkipFrom(buf, cursor) == Some(cursor + |name|)
  }

  /** Names are passed when written in full. */
  lemma FullNameIsPassed(labels: seq<string>)
    requires AreLabels(labels)
    ensures IsPassed(NameBytes(labels))
  {
    hide HasAt, NameBytes, AreLabels, IsBytes, SkipFrom;
    forall buf: string, cursor: nat | IsBytes(buf) && HasAt(buf, cursor, NameBytes(labels))
      ensures SkipFrom(buf, cursor) == Some(cursor + |NameBytes(labels)|)
    {
      EncodedNameSkips(buf, cursor, labels);
    }
  }

  function PointerBytes(at: nat): string
    requires at < 0x4000
  {
    [(0xC0 + at / 256) as char, (at % 256) as char]
  }

  /** And when some labels are followed by a pointer to the others. */
  lemma {:induction false} CompressedNameIsPassed(labels: seq<string>, at: nat)
    requires AreLabels(labels) && at < 0x4000
    ensures IsPassed(LabelsBytes(labels) + PointerBytes(at))
    decreases |labels|
  {
    hide HasAt, PointerBytes, IsBytes, SkipFrom, LabelBytes, LabelsBytes, IsLabel;
    var name := LabelsBytes(labels) + PointerBytes(at);
    forall buf: string, cursor: nat | IsBytes(buf) && HasAt(buf, cursor, name)
      ensures SkipFrom(buf, cursor) == Some(cursor + |name|)
    {
      if labels == [] {
        NoLabels();
        assert name == PointerBytes(at);
        PointerPasses(buf, cursor, at);
      } else {
        var first, rest := LabelBytes(labels[0]), LabelsBytes(labels[1..]) + PointerBytes(at);
        LabelsBytesCons(labels);
        assert name == first + rest;
        HasParts(buf, cursor, first, rest);
        ReadLabel(buf, cursor, 0, [], labels[0]);
        LabelLength(labels[0]);
        CompressedNameIsPassed(labels[1..], at);
        PassedAt(rest, buf, cursor + |first|);
      }
    }
  }

  lemma NoLabels()
    ensures LabelsBytes([]) == []
  {
  }

  lemma PointerPasses(buf: string, cursor: nat, at: nat)
    requires IsBytes(buf) && at < 0x4000 && HasAt(buf, cursor, PointerBytes(at))
    ensures SkipFrom(buf, cursor) == Some(cursor + |PointerBytes(at)|)
  {
    hide HasAt, SkipFrom, ReadFrom;
    PointerReads(buf, cursor, 0, [], at);
  }

  lemma PassedAt(name: string, buf: string, cursor: nat)
    requires IsPassed(name) && IsBytes(buf) && HasAt(buf, cursor, name)
    ensures SkipFrom(buf, cursor) == Some(cursor + |name|)
  {
  }

  // ----- read

  /** A name as it is written: in full, or as labels and a pointer to where the rest of it is written. */
  datatype Name =
    | Full(labels: seq<string>)
    | Linked(labels: seq<string>, at: nat, rest: Name)
  {
    predicate Valid() {
      AreLabels(labels) && (Linked? ==> at < 0x4000 && rest.Valid())
    }

    function Bytes(): string
      requires Valid()
    {
      match this
      case Full(labels) => NameBytes(labels)
      case Linked(labels, at, _) => LabelsBytes(labels) + PointerBytes(at)
    }

    /** All of its labels, wherever they are written. */
    function Labels(): seq<string> {
      match this
      case Full(labels) => labels
      case Linked(labels, _, rest) => labels + rest.Labels()
    }

    function Links(): nat {
      match this
      case Full(_) => 0
      case Linked(_, _, rest) => 1 + rest.Links()
    }

    /** What the pointers promise is in the message. */
    predicate IsLinkedIn(buf: string)
      requires Valid()
    {
      Linked? ==> HasAt(buf, at, rest.Bytes()) && rest.IsLinkedIn(buf)
    }
  }

  /** A name reads as its labels joined by dots, exactly when it takes no more pointers than are left. */
  lemma {:induction false} NameReads(buf: string, cursor: nat, hops: nat, name: string, n: Name)
    requires IsBytes(buf) && hops <= MAX_HOPS && n.Valid()
    requires HasAt(buf, cursor, n.Bytes()) && n.IsLinkedIn(buf)
    ensures
      ReadFrom(buf, cursor, hops, name) == if hops + n.Links() <= MAX_HOPS then Some(Join(name, n.Labels())) else None
    decreases n
  {
    hide HasAt, ReadFrom, IsBytes, NameBytes, LabelsBytes, PointerBytes, AreLabels, Join;
    match n
    case Full(labels) => EncodedNameReads(buf, cursor, hops, name, labels);
    case Linked(labels, at, rest) =>
      var there := cursor + |LabelsBytes(labels)|;
      HasParts(buf, cursor, LabelsBytes(labels), PointerBytes(at));
      LabelsRead(buf, cursor, hops, name, labels);
      if hops < MAX_HOPS {
        PointerFollowed(buf, there, hops, Join(name, labels), at);
        NameReads(buf, at, hops + 1, Join(name, labels), rest);
        JoinOfParts(name, labels, rest.Labels());
      } else {
        LastPointer(buf, there, Join(name, labels), at);
      }
  }

  lemma {:induction false} LabelsRead(buf: string, cursor: nat, hops: nat, name: string, labels: seq<string>)
    requires IsBytes(buf) && hops <= MAX_HOPS && AreLabels(labels) && HasAt(buf, cursor, LabelsBytes(labels))
    ensures
      ReadFrom(buf, cursor, hops, name) == ReadFrom(buf, cursor + |LabelsBytes(labels)|, hops, Join(name, labels))
    decreases |labels|
  {
    hide HasAt, ReadFrom, IsBytes, LabelBytes, LabelsBytes, IsLabel, AddLabel;
    if labels == [] {
      NoLabels();
    } else {
      LabelsBytesCons(labels);
      HasParts(buf, cursor, LabelBytes(labels[0]), LabelsBytes(labels[1..]));
      ReadLabel(buf, cursor, hops, name, labels[0]);
      LabelLength(labels[0]);
      LabelsRead(buf, cursor + 1 + |labels[0]|, hops, AddLabel(name, labels[0]), labels[1..]);
    }
  }

  lemma PointerFollowed(buf: string, cursor: nat, hops: nat, name: string, at: nat)
    requires IsBytes(buf) && hops < MAX_HOPS && at < 0x4000 && HasAt(buf, cursor, PointerBytes(at))
    ensures ReadFrom(buf, cursor, hops, name) == ReadFrom(buf, at, hops + 1, name)
  {
    hide HasAt, SkipFrom, ReadFrom;
    PointerReads(buf, cursor, hops, name, at);
  }

  lemma LastPointer(buf: string, cursor: nat, name: string, at: nat)
    requires IsBytes(buf) && at < 0x4000 && HasAt(buf, cursor, PointerBytes(at))
    ensures ReadFrom(buf, cursor, MAX_HOPS, name) == None
  {
    var s := buf[cursor..cursor + 2];
    assert buf[cursor] == s[0] && buf[cursor + 1] == s[1];
  }

  lemma {:induction false} JoinOfParts(name: string, a: seq<string>, b: seq<string>)
    ensures Join(name, a + b) == Join(Join(name, a), b)
    decreases |a|
  {
    hide AddLabel;
    if a == [] {
      assert a + b == b;
    } else {
      assert (a + b)[1..] == a[1..] + b;
      JoinOfParts(AddLabel(name, a[0]), a[1..], b);
    }
  }
}
