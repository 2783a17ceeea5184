/** What the capture means for a well-formed reply: which elements are copied, and that reading the copy again gives
    what the reply held. */
module XmlMessages {
  import opened ResponseCodes
  import opened Text
  import opened Wrappers
  import opened XmlCapture
  import opened XmlRoundTrip
  import opened XmlText

  // ----- well-formed content

  /** The content of an element: its first part, and what follows that part. A piece is an event other than a start or
      an end tag. */
  datatype Content =
    | Nothing
    | Element(tag: Tag, children: Content, rest: Content)
    | Piece(event: Event, rest: Content)

  predicate WellFormed(content: Content) {
    match content
    case Nothing => true
    case Element(_, children, rest) => WellFormed(children) && WellFormed(rest)
    case Piece(event, rest) => !event.Start? && !event.End? && WellFormed(rest)
  }

  /** What the XML reader reports of it. */
  function Events(content: Content): seq<Event> {
    match content
    case Nothing => []
    case Element(tag, children, rest) => [Start(tag)] + (Events(children) + ([End(tag.name)] + Events(rest)))
    case Piece(event, rest) => [event] + Events(rest)
  }

  /** The events inside the outermost Items, Attachments and Folders elements, in order. */
  function Captured(content: Content): seq<Event> {
    match content
    case Nothing => []
    case Element(tag, children, rest) =>
      (if Captures(tag) then Events(children) else Captured(children)) + Captured(rest)
    case Piece(_, rest) => Captured(rest)
  }

  predicate Captures(tag: Tag) {
    FieldOf(tag).None? && StartsCapture(tag)
  }

  /** What is gathered from content outside a capture: text belongs to the field element it stands in directly, up to
      the first element inside that. */
  function After(content: Content, g: Gathered): Gathered {
    match content
    case Nothing => g
    case Piece(event, rest) => After(rest, if event.Text? then Hear(g, event.text) else g)
    case Element(tag, children, rest) =>
      if Captures(tag) then After(rest, CopyAll(g, Events(children)).(current := None))
      else After(rest, After(children, g.(current := FieldOf(tag))).(current := None))
  }

  function CopyAll(g: Gathered, events: seq<Event>): Gathered {
    g.(inner := g.inner + WriteAll(events))
  }

  // ----- small steps

  /** Reading `events` takes the message from state `st` to `after`, and not to its end. */
  ghost predicate Takes(events: seq<Event>, st: State, after: State) {
    forall tail: seq<Event> :: Run(events + tail, st) == Ahead(|events|, Run(tail, after))
  }

  lemma TakesNothing(st: State)
    ensures Takes([], st, st)
  {
    hide Run;
    forall tail: seq<Event>
      ensures Run([] + tail, st) == Ahead(0, Run(tail, st))
    {
      assert [] + tail == tail;
    }
  }

  lemma TakesOne(event: Event, st: State)
    requires st.depth > 1 || !event.End?
    ensures Takes([event], st, Step(st, event))
  {
    hide Write, FieldOf, StartsCapture, Hear;
    forall tail: seq<Event>
      ensures Run([event] + tail, st) == Ahead(1, Run(tail, Step(st, event)))
    {
      assert ([event] + tail)[1..] == tail;
    }
  }

  lemma TakesBoth(a: seq<Event>, b: seq<Event>, st: State, between: State, after: State)
    requires Takes(a, st, between) && Takes(b, between, after)
    ensures Takes(a + b, st, after)
  {
    hide Run;
    forall tail: seq<Event>
      ensures Run((a + b) + tail, st) == Ahead(|a + b|, Run(tail, after))
    {
      assert (a + b) + tail == a + (b + tail);
    }
  }

  lemma CopyNothing(g: Gathered)
    ensures CopyAll(g, []) == g
  {
    assert g.inner + "" == g.inner;
  }

  lemma CopyOneMore(g: Gathered, event: Event, events: seq<Event>)
    ensures CopyAll(Copy(g, event), events) == CopyAll(g, [event] + events)
  {
    hide Write;
    assert ([event] + events)[1..] == events;
    Associative(g.inner, Write(event), WriteAll(events));
  }

  lemma {:induction false} WriteAllAppend(a: seq<Event>, b: seq<Event>)
    ensures WriteAll(a + b) == WriteAll(a) + WriteAll(b)
  {
    hide Write;
    if a == [] {
      assert a + b == b;
    } else {
      assert (a + b)[1..] == a[1..] + b;
      WriteAllAppend(a[1..], b);
    }
  }

  lemma CopyTwice(g: Gathered, a: seq<Event>, b: seq<Event>)
    ensures CopyAll(CopyAll(g, a), b) == CopyAll(g, a + b)
  {
    hide WriteAll;
    WriteAllAppend(a, b);
    Associative(g.inner, WriteAll(a), WriteAll(b));
  }

  // ----- inside a capture

  lemma StepInside(st: State, event: Event)
    requires st.captured > 0 && st.gathered.current == None && (event.End? ==> st.captured > 1 && st.depth > 0)
    ensures
      Step(st, event)
      == State(Copy(st.gathered, event),
               if event.Start? then st.depth + 1 else if event.End? then st.depth - 1 else st.depth,
               if event.Start? then st.captured + 1 else if event.End? then st.captured - 1 else st.captured)
  {
    hide Write, FieldOf, StartsCapture, Hear;
    assert event.Other? || event.Empty? || event.CData? || event.GeneralRef? ==>
      Step(st, event) == State(Copy(st.gathered, event), st.depth, st.captured);
  }

  function Copied(st: State, events: seq<Event>): State {
    st.(gathered := CopyAll(st.gathered, events))
  }

  lemma PieceInside(event: Event, st: State)
    requires st.captured > 0 && st.gathered.current == None && !event.Start? && !event.End?
    ensures Takes([event], st, st.(gathered := Copy(st.gathered, event)))
  {
    hide Takes, Write;
    TakesOne(event, st);
    StepInside(st, event);
  }

  lemma StartInside(tag: Tag, st: State)
    requires st.captured > 0 && st.gathered.current == None
    ensures Takes([Start(tag)], st, State(Copy(st.gathered, Start(tag)), st.depth + 1, st.captured + 1))
  {
    hide Takes, Write;
    TakesOne(Start(tag), st);
    StepInside(st, Start(tag));
  }

  lemma EndInside(name: string, st: State)
    requires st.captured > 1 && st.depth > 1 && st.gathered.current == None
    ensures Takes([End(name)], st, State(Copy(st.gathered, End(name)), st.depth - 1, st.captured - 1))
  {
    hide Takes, Write;
    TakesOne(End(name), st);
    StepInside(st, End(name));
  }

  lemma {:induction false} CopyKeepsCurrent(g: Gathered, events: seq<Event>)
    ensures CopyAll(g, events).current == g.current
  {
  }

  /** The whole content is copied, and the capture goes on just as deep as before it. */
  lemma {:induction false} InsideCapture(content: Content, st: State)
    requires WellFormed(content)
    requires 0 < st.captured < st.depth && st.gathered.current == None
    ensures Takes(Events(content), st, Copied(st, Events(content)))
    decreases content, 0
  {
    hide Takes, Copy, CopyAll;
    CopyNothing(st.gathered);
    match content
    case Nothing =>
      TakesNothing(st);
    case Piece(event, rest) =>
      var next := st.(gathered := Copy(st.gathered, event));
      CurrentKept(st.gathered, event);
      PieceInside(event, st);
      InsideCapture(rest, next);
      CopyOneMore(st.gathered, event, Events(rest));
      TakesBoth([event], Events(rest), st, next, Copied(next, Events(rest)));
    case Element(tag, children, rest) =>
      ElementInside(tag, children, st);
      var next := Copied(st, [Start(tag)] + Events(children) + [End(tag.name)]);
      CopyKeepsCurrent(st.gathered, [Start(tag)] + Events(children) + [End(tag.name)]);
      InsideCapture(rest, next);
      CopyTwice(st.gathered, [Start(tag)] + Events(children) + [End(tag.name)], Events(rest));
      TakesBoth([Start(tag)] + Events(children) + [End(tag.name)], Events(rest), st, next, Copied(next, Events(rest)));
      ElementParts(tag, children, rest);
  }

  lemma CurrentKept(g: Gathered, event: Event)
    ensures Copy(g, event).current == g.current
  {
  }

  lemma ElementParts(tag: Tag, children: Content, rest: Content)
    ensures
      Events(Element(tag, children, rest)) == ([Start(tag)] + Events(children) + [End(tag.name)]) + Events(rest)
  {
  }

  lemma {:induction false} ElementInside(tag: Tag, children: Content, st: State)
    requires WellFormed(children)
    requires 0 < st.captured < st.depth && st.gathered.current == None
    ensures
      Takes([Start(tag)] + Events(children) + [End(tag.name)], st,
            Copied(st, [Start(tag)] + Events(children) + [End(tag.name)]))
    decreases children, 1
  {
    hide Takes, Copy, CopyAll;
    var start, inside, end := [Start(tag)], Events(children), [End(tag.name)];
    var s1 := State(Copy(st.gathered, Start(tag)), st.depth + 1, st.captured + 1);
    StartInside(tag, st);
    CurrentKept(st.gathered, Start(tag));
    var s2 := Copied(s1, inside);
    InsideCapture(children, s1);
    CopyKeepsCurrent(s1.gathered, inside);
    CopyOneMore(st.gathered, Start(tag), inside);
    TakesBoth(start, inside, st, s1, s2);
    var s3 := State(Copy(s2.gathered, End(tag.name)), st.depth, st.captured);
    EndInside(tag.name, s2);
    CopyNothing(s3.gathered);
    CopyOneMore(s2.gathered, End(tag.name), []);
    assert [End(tag.name)] + [] == end;
    CopyTwice(st.gathered, start + inside, end);
    TakesBoth(start + inside, end, st, s2, s3);
  }

  // ----- outside a capture

  function Moved(st: State, g: Gathered): State {
    st.(gathered := g)
  }

  lemma PieceOutside(event: Event, st: State)
    requires st.captured == 0 && !event.Start? && !event.End?
    ensures Takes([event], st, Moved(st, if event.Text? then Hear(st.gathered, event.text) else st.gathered))
  {
    hide Takes, Write, Hear;
    TakesOne(event, st);
  }

  lemma StartOutside(tag: Tag, st: State)
    requires st.captured == 0
    ensures
      Takes([Start(tag)], st,
            State(st.gathered.(current := FieldOf(tag)), st.depth + 1, if Captures(tag) then 1 else 0))
  {
    hide Takes, Write, Hear, FieldOf, StartsCapture;
    TakesOne(Start(tag), st);
  }

  lemma EndOutside(name: string, st: State)
    requires st.captured <= 1 && st.depth > 1
    ensures Takes([End(name)], st, State(st.gathered.(current := None), st.depth - 1, 0))
  {
    hide Takes, Write, Hear, FieldOf, StartsCapture;
    TakesOne(End(name), st);
  }

  /** Content outside a capture: every captured element is copied, and its own end tag ends the capture. */
  lemma {:induction false} OutsideCapture(content: Content, st: State)
    requires WellFormed(content) && st.captured == 0 && st.depth > 0
    ensures Takes(Events(content), st, Moved(st, After(content, st.gathered)))
    decreases content, 0
  {
    hide Takes, Hear, CopyAll, Captures;
    match content
    case Nothing =>
      TakesNothing(st);
    case Piece(event, rest) =>
      var next := Moved(st, if event.Text? then Hear(st.gathered, event.text) else st.gathered);
      PieceOutside(event, st);
      OutsideCapture(rest, next);
      TakesBoth([event], Events(rest), st, next, Moved(next, After(rest, next.gathered)));
    case Element(tag, children, rest) =>
      var next := Moved(st, AfterElement(tag, children, st.gathered));
      ElementOutside(tag, children, st);
      OutsideCapture(rest, next);
      TakesBoth([Start(tag)] + Events(children) + [End(tag.name)], Events(rest), st, next,
                Moved(next, After(rest, next.gathered)));
      ElementParts(tag, children, rest);
  }

  function AfterElement(tag: Tag, children: Content, g: Gathered): Gathered {
    if Captures(tag) then CopyAll(g, Events(children)).(current := None)
    else After(children, g.(current := FieldOf(tag))).(current := None)
  }

  lemma {:induction false} ElementOutside(tag: Tag, children: Content, st: State)
    requires WellFormed(children) && st.captured == 0 && st.depth > 0
    ensures
      Takes([Start(tag)] + Events(children) + [End(tag.name)], st, Moved(st, AfterElement(tag, children, st.gathered)))
    decreases children, 1
  {
    hide Takes, CopyAll, FieldOf, After;
    var start, inside, end := [Start(tag)], Events(children), [End(tag.name)];
    var s1 := State(st.gathered.(current := FieldOf(tag)), st.depth + 1, if Captures(tag) then 1 else 0);
    StartOutside(tag, st);
    var s2;
    if Captures(tag) {
      s2 := Copied(s1, inside);
      InsideCapture(children, s1);
      CopyForgets(st.gathered, FieldOf(tag), inside);
    } else {
      s2 := Moved(s1, After(children, s1.gathered));
      OutsideCapture(children, s1);
    }
    TakesBoth(start, inside, st, s1, s2);
    EndOutside(tag.name, s2);
    TakesBoth(start + inside, end, st, s2, Moved(st, s2.gathered.(current := None)));
  }

  lemma CopyForgets(g: Gathered, current: Option<Field>, events: seq<Event>)
    ensures CopyAll(g.(current := current), events).(current := None) == CopyAll(g, events).(current := None)
  {
  }

  // ----- the message

  /** What is copied is the text of the captured events. */
  lemma {:induction false} CopiedIsCaptured(content: Content, g: Gathered)
    ensures After(content, g).inner == g.inner + WriteAll(Captured(content))
  {
    hide WriteAll, Captures, Hear, FieldOf;
    match content
    case Nothing =>
      assert WriteAll([]) == "" by { NothingWritten(); }
      assert g.inner + "" == g.inner;
    case Piece(event, rest) =>
      var next := if event.Text? then Hear(g, event.text) else g;
      HearKeepsInner(g, event);
      CopiedIsCaptured(rest, next);
    case Element(tag, children, rest) =>
      var next := AfterElement(tag, children, g);
      if !Captures(tag) {
        CopiedIsCaptured(children, g.(current := FieldOf(tag)));
      }
      var first := if Captures(tag) then Events(children) else Captured(children);
      CopiedIsCaptured(rest, next);
      WriteAllAppend(first, Captured(rest));
      Associative(g.inner, WriteAll(first), WriteAll(Captured(rest)));
  }

  lemma NothingWritten()
    ensures WriteAll([]) == ""
  {
  }

  lemma HearKeepsInner(g: Gathered, event: Event)
    ensures event.Text? ==> Hear(g, event.text).inner == g.inner
  {
  }

  /** A message ends at exactly the end tag that matches its start tag, and `inner` is the text of what stands inside
      its outermost Items, Attachments and Folders. */
  lemma MessageIsRead(content: Content, name: string, tail: seq<Event>)
    requires WellFormed(content)
    ensures
      var stop := Run(Events(content) + ([End(name)] + tail), INITIAL);
      && stop.read == |Events(content)| + 1
      && stop.state.gathered == After(content, INITIAL.gathered).(current := None)
      && stop.state.gathered.inner == WriteAll(Captured(content))
  {
    hide After, WriteAll, Write;
    OutsideCapture(content, INITIAL);
    CopiedIsCaptured(content, INITIAL.gathered);
    var last := Moved(INITIAL, After(content, INITIAL.gathered));
    assert Run(Events(content) + ([End(name)] + tail), INITIAL)
        == Ahead(|Events(content)|, Run([End(name)] + tail, last));
    assert "" + WriteAll(Captured(content)) == WriteAll(Captured(content));
    EndOfMessage(name, tail, last);
  }

  lemma EndOfMessage(name: string, tail: seq<Event>, st: State)
    requires st.depth == 1 && st.captured == 0
    ensures Run([End(name)] + tail, st) == Stop(State(st.gathered.(current := None), 0, 0), 1)
  {
  }

  // ----- reading the copy again

  lemma {:induction false} CapturedAreEvents(content: Content, event: Event)
    requires event in Captured(content)
    ensures event in Events(content)
  {
    hide Captures;
    match content
    case Piece(_, rest) =>
      CapturedAreEvents(content.rest, event);
    case Element(tag, children, rest) =>
      if event in Captured(rest) {
        CapturedAreEvents(rest, event);
      } else if !Captures(tag) {
        CapturedAreEvents(children, event);
      }
  }

  /** Reading a message and then its inner text gives the captured elements as the reply held them, nesting, attributes
      and text, exactly when no attribute value among them is one that escaping again would change. */
  lemma CaptureReadsBack(content: Content, name: string, tail: seq<Event>)
    requires WellFormed(content) && forall event :: event in Events(content) ==> Writable(event)
    ensures
      var inner := Run(Events(content) + ([End(name)] + tail), INITIAL).state.gathered.inner;
      && ReadAll(inner) == Some(AllItems(Captured(content), Spaced))
      && (ReadAll(inner) == Some(AllItems(Captured(content), Value))
          <==>
          (forall event :: event in Captured(content) ==> EventSurvives(event)))
  {
    hide *;
    MessageIsRead(content, name, tail);
    forall event | event in Captured(content)
      ensures Writable(event)
    {
      CapturedAreEvents(content, event);
    }
    ReadsBack(Captured(content));
  }

  /** The wrapper adds one element around the copy, which is what the item parsers are given; an empty copy stays
      empty. */
  lemma WrappedReads(events: seq<Event>)
    requires forall event :: event in events ==> Writable(event)
    ensures WrapInner(WriteAll(events)) == "" <==> WriteAll(events) == ""
    ensures
      WriteAll(events) != "" ==>
        ReadAll(WrapInner(WriteAll(events)))
        == Some([Open(INNER, INNER_TAG.attributes)] + AllItems(events, Spaced) + [Close(INNER)])
  {
    hide WriteAll, AllItems, Write, Writable, ReadAll, WrapInner;
    var inner := WriteAll(events);
    WrapperIsElement(inner);
    if inner != "" {
      var close := Write(End(INNER));
      WrapperTag();
      EventReads(Start(INNER_TAG), inner + close);
      EventsRead(events, close);
      EventReads(End(INNER), "");
      assert close + "" == close;
      NothingToRead([Close(INNER)]);
      JoinedTwice(AllItems(events, Spaced), [Close(INNER)], ReadAll(""));
      JoinedTwice([Open(INNER, INNER_TAG.attributes)], AllItems(events, Spaced) + [Close(INNER)], ReadAll(""));
      assert [Open(INNER, INNER_TAG.attributes)] + (AllItems(events, Spaced) + [Close(INNER)])
          == [Open(INNER, INNER_TAG.attributes)] + AllItems(events, Spaced) + [Close(INNER)];
      NothingToRead([Open(INNER, INNER_TAG.attributes)] + AllItems(events, Spaced) + [Close(INNER)]);
    }
  }

  /** The wrapper declares the namespaces of items and messages. */
  lemma WrapperAsWritten()
    ensures INNER == "vandelay-inner"
    ensures INNER_TAG.attributes == [Attribute("xmlns", NS_TYPES), Attribute("xmlns:t", NS_TYPES),
      Attribute("xmlns:m", NS_MESSAGES)]
    ensures NS_TYPES == "http://schemas.microsoft.com" + "/exchange/services/2006/" + "types"
    ensures NS_MESSAGES == "http://schemas.microsoft.com" + "/exchange/services/2006/" + "messages"
  {
  }

  predicate IsPlainChar(c: char) {
    c !in {'&', '<', '>', '"', '\t', '\r', '\n'}
  }

  predicate IsPlain(s: string) {
    forall c :: c in s ==> IsPlainChar(c)
  }

  lemma {:induction false} PlainIsKept(s: string)
    requires IsPlain(s)
    ensures EscapeValue(s) == s && Spaced(s) == s
  {
    if s != [] {
      assert s[0] in s;
      forall c | c in s[1..]
        ensures IsPlainChar(c)
      {
        assert c in s;
      }
      PlainIsKept(s[1..]);
    }
  }

  lemma HostIsPlain(c: char)
    requires c in HOST
    ensures IsPlainChar(c)
  {
  }

  lemma PathIsPlain(c: char)
    requires c in PATH
    ensures IsPlainChar(c)
  {
  }

  lemma NamespacesArePlain()
    ensures IsPlain(NS_TYPES) && IsPlain(NS_MESSAGES)
  {
    forall c | c in NS_TYPES || c in NS_MESSAGES
      ensures IsPlainChar(c)
    {
      if c in HOST {
        HostIsPlain(c);
      } else if c in PATH {
        PathIsPlain(c);
      } else {
        assert c in "types" || c in "messages";
      }
    }
  }

  lemma DeclarationIsAttribute(key: string, namespace: string)
    requires IsPlain(namespace)
    ensures WriteAttribute(Attribute(key, namespace)) == Declaration(key, namespace)
    ensures Spaced(namespace) == namespace
  {
    hide EscapeValue, Spaced, IsPlain;
    PlainIsKept(namespace);
  }

  lemma WrapperHasNames()
    ensures IsName(INNER) && IsName("xmlns") && IsName("xmlns:t") && IsName("xmlns:m")
  {
    forall c | c in INNER
      ensures IsNameChar(c)
    {
    }
  }

  lemma WrapperTag()
    ensures Writable(Start(INNER_TAG)) && Writable(End(INNER))
    ensures Items(Start(INNER_TAG), Spaced) == [Open(INNER, INNER_TAG.attributes)]
    ensures Items(End(INNER), Spaced) == [Close(INNER)]
  {
    hide Spaced, IsName, IsPlain, WriteAttribute, Declaration;
    WrapperHasNames();
    NamespacesArePlain();
    DeclarationIsAttribute("xmlns", NS_TYPES);
    DeclarationIsAttribute("xmlns:m", NS_MESSAGES);
    assert Values(INNER_TAG.attributes, Spaced) == INNER_TAG.attributes;
  }

  lemma ThreeAttributes(a: Attribute, b: Attribute, c: Attribute)
    ensures WriteAttributes([a, b, c]) == WriteAttribute(a) + (WriteAttribute(b) + WriteAttribute(c))
  {
    hide WriteAttribute;
    assert [a, b, c][1..] == [b, c] && [b, c][1..] == [c] && [c][1..] == [];
    assert WriteAttributes([c]) == WriteAttribute(c) + [];
  }

  lemma WrapperIsElement(inner: string)
    ensures inner != "" ==> WrapInner(inner) == Write(Start(INNER_TAG)) + (inner + Write(End(INNER)))
    ensures inner == "" ==> WrapInner(inner) == ""
    ensures inner != "" ==> WrapInner(inner) != ""
  {
    hide WriteAttributes, WriteAttribute, Declaration, IsPlain, Spaced;
    NamespacesArePlain();
    DeclarationIsAttribute("xmlns", NS_TYPES);
    DeclarationIsAttribute("xmlns:t", NS_TYPES);
    DeclarationIsAttribute("xmlns:m", NS_MESSAGES);
    ThreeAttributes(INNER_TAG.attributes[0], INNER_TAG.attributes[1], INNER_TAG.attributes[2]);
    assert INNER_TAG.attributes == [INNER_TAG.attributes[0], INNER_TAG.attributes[1], INNER_TAG.attributes[2]];
    Associative(Write(Start(INNER_TAG)), inner, Write(End(INNER)));
  }

  // ----- any events, well-formed or not

  function Over(st: State, events: seq<Event>): State {
    if events == [] then st else Step(Over(st, events[..|events| - 1]), events[|events| - 1])
  }

  /** As long as a capture lasts, the captured elements are counted in step with the open ones; so the end tag that ends
      it belongs to the element that started it, and no end tag inside it can end the message. */
  lemma {:induction false} CaptureKeepsLevel(st: State, events: seq<Event>)
    requires 0 < st.captured < st.depth
    requires forall k :: 0 <= k < |events| ==> Over(st, events[..k]).captured > 0
    ensures
      var now := Over(st, events);
      now.captured < now.depth && now.depth - now.captured == st.depth - st.captured
  {
    if events != [] {
      var before := events[..|events| - 1];
      forall k | 0 <= k < |before|
        ensures Over(st, before[..k]).captured > 0
      {
        assert before[..k] == events[..k];
      }
      CaptureKeepsLevel(st, before);
      LevelStep(Over(st, before), events[|events| - 1]);
    }
  }

  lemma LevelStep(st: State, event: Event)
    requires 0 < st.captured < st.depth
    ensures
      var next := Step(st, event);
      next.captured < next.depth && next.depth - next.captured == st.depth - st.captured
  {
    hide Write, FieldOf, StartsCapture, Hear;
  }

  // ----- the fields

  predicate OnlyPieces(content: Content) {
    match content
    case Nothing => true
    case Element(_, _, _) => false
    case Piece(_, rest) => OnlyPieces(rest)
  }

  /** The last piece of plain text. */
  function LastText(content: Content): Option<string>
    requires OnlyPieces(content)
  {
    match content
    case Nothing => None
    case Piece(event, rest) =>
      if LastText(rest).Some? then LastText(rest)
      else if event.Text? then Some(event.text)
      else None
  }

  /** Of the text of a field only the last piece counts: references and CDATA are passed over, and what stands before
      them is dropped. */
  lemma {:induction false} FieldIsLastPiece(content: Content, g: Gathered)
    requires OnlyPieces(content)
    ensures After(content, g) == (if LastText(content).Some? then Hear(g, LastText(content).value) else g)
  {
    hide ParseCode, Trim;
    match content
    case Nothing =>
    case Piece(event, rest) =>
      FieldIsLastPiece(rest, if event.Text? then Hear(g, event.text) else g);
  }

  /** The characters a piece stands for. */
  function Contribution(event: Event): string {
    match event
    case Text(text) => text
    case CData(text) => text
    case GeneralRef(name) => if Resolve(name).Some? then [Resolve(name).value] else ""
    case _ => ""
  }

  /** All the text of an element. */
  function WholeText(content: Content): string
    requires OnlyPieces(content)
  {
    match content
    case Nothing => ""
    case Piece(event, rest) => Contribution(event) + WholeText(rest)
  }

  predicate Silent(content: Content)
    requires OnlyPieces(content)
  {
    match content
    case Nothing => true
    case Piece(event, rest) => Contribution(event) == "" && Silent(rest)
  }

  /** Apart from the last piece of plain text, if there is one, no piece stands for any characters. */
  predicate SilentButLast(content: Content)
    requires OnlyPieces(content)
  {
    match content
    case Nothing => true
    case Piece(event, rest) =>
      if event.Text? && LastText(rest).None? then Silent(rest)
      else Contribution(event) == "" && SilentButLast(rest)
  }

  lemma {:induction false} SilentIsEmpty(content: Content)
    requires OnlyPieces(content)
    ensures Silent(content) <==> WholeText(content) == ""
  {
    hide Contribution;
    match content
    case Nothing =>
    case Piece(event, rest) =>
      SilentIsEmpty(rest);
  }

  lemma {:induction false} LastIsWhole(content: Content)
    requires OnlyPieces(content) && LastText(content).Some?
    ensures |LastText(content).value| <= |WholeText(content)|
    ensures WholeText(content) == LastText(content).value <==> SilentButLast(content)
  {
    match content
    case Piece(event, rest) =>
      hide Contribution;
      if LastText(rest).Some? {
        LastIsWhole(rest);
        assert Contribution(event) == "" ==> WholeText(content) == WholeText(rest);
      } else {
        SilentIsEmpty(rest);
        TextContributes(event);
        assert WholeText(rest) == "" ==> WholeText(content) == Contribution(event);
      }
  }

  lemma TextContributes(event: Event)
    ensures event.Text? ==> Contribution(event) == event.text
  {
  }

  lemma {:induction false} SilentWithoutText(content: Content)
    requires OnlyPieces(content) && LastText(content).None?
    ensures SilentButLast(content) <==> Silent(content)
  {
    hide Contribution;
    match content
    case Nothing =>
    case Piece(event, rest) =>
      SilentWithoutText(rest);
  }

  /** A message text is read whole exactly when all pieces but the last of plain text stand for nothing; only where
      there is no plain text at all, and an earlier element of the message held some, that stays. */
  lemma FieldIsWhole(content: Content, g: Gathered)
    requires OnlyPieces(content) && g.current == Some(TextField)
    ensures
      LastText(content).Some? || g.text == "" ==>
        (After(content, g).text == WholeText(content) <==> SilentButLast(content))
    ensures LastText(content).None? ==> After(content, g) == g
  {
    hide After, SilentButLast, WholeText, Silent;
    FieldIsLastPiece(content, g);
    if LastText(content).Some? {
      LastIsWhole(content);
    } else {
      SilentWithoutText(content);
      SilentIsEmpty(content);
    }
  }

  /** The text "a &amp; b" of a message is read as " b". */
  lemma ReferenceCutsMessageText(g: Gathered)
    requires g.current == Some(TextField)
    ensures
      After(Piece(Text("a "), Piece(GeneralRef("amp"), Piece(Text(" b"), Nothing))), g).text == " b"
  {
    FieldIsLastPiece(Piece(Text("a "), Piece(GeneralRef("amp"), Piece(Text(" b"), Nothing))), g);
  }

  // ----- the whole reply

  /** The messages of a reply are its elements of that name, outside one another; each is made of its own content. */
  function MessagesIn(content: Content, local: string): seq<Message> {
    match content
    case Nothing => []
    case Piece(_, rest) => MessagesIn(rest, local)
    case Element(tag, children, rest) =>
      (if IsMessages(tag, local) then [MessageOf(ClassOf(tag), After(children, INITIAL.gathered))]
       else MessagesIn(children, local))
      + MessagesIn(rest, local)
  }

  lemma CurrentDoesNotMatter(responseClass: string, g: Gathered)
    ensures MessageOf(responseClass, g.(current := None)) == MessageOf(responseClass, g)
  {
  }

  lemma SkipEvent(event: Event, tail: seq<Event>, local: string)
    requires event.Start? ==> !IsMessages(event.tag, local)
    ensures AllMessages([event] + tail, local) == AllMessages(tail, local)
  {
    hide IsMessages;
    assert ([event] + tail)[1..] == tail;
  }

  lemma TakeMessage(tag: Tag, children: Content, tail: seq<Event>, local: string)
    requires WellFormed(children) && IsMessages(tag, local)
    ensures
      AllMessages([Start(tag)] + (Events(children) + ([End(tag.name)] + tail)), local)
      == [MessageOf(ClassOf(tag), After(children, INITIAL.gathered))] + AllMessages(tail, local)
  {
    hide IsMessages, Run, MessageOf, After, ClassOf, Events, WellFormed, Captured, WriteAll;
    var inside := Events(children) + ([End(tag.name)] + tail);
    assert ([Start(tag)] + inside)[1..] == inside;
    MessageIsRead(children, tag.name, tail);
    assert inside[|Events(children)| + 1..] == tail;
    CurrentDoesNotMatter(ClassOf(tag), After(children, INITIAL.gathered));
  }

  /** `parse_response_messages` finds exactly the messages of a well-formed reply, in order. */
  lemma {:induction false} AllMessagesAreFound(content: Content, tail: seq<Event>, local: string)
    requires WellFormed(content)
    ensures AllMessages(Events(content) + tail, local) == MessagesIn(content, local) + AllMessages(tail, local)
  {
    hide AllMessages, IsMessages, MessageOf, After, ClassOf;
    match content
    case Nothing =>
      assert [] + tail == tail;
    case Piece(event, rest) =>
      assert Events(content) + tail == [event] + (Events(rest) + tail);
      SkipEvent(event, Events(rest) + tail, local);
      AllMessagesAreFound(rest, tail, local);
    case Element(tag, children, rest) =>
      var after := Events(rest) + tail;
      assert Events(content) + tail == [Start(tag)] + (Events(children) + ([End(tag.name)] + after));
      AllMessagesAreFound(rest, tail, local);
      if IsMessages(tag, local) {
        TakeMessage(tag, children, after, local);
      } else {
        SkipEvent(Start(tag), Events(children) + ([End(tag.name)] + after), local);
        AllMessagesAreFound(children, [End(tag.name)] + after, local);
        SkipEvent(End(tag.name), after, local);
      }
  }
}
