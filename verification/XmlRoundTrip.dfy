/** What a reader gathers from the written events, for every sequence of events. */
module XmlRoundTrip {
  import opened Wrappers
  import opened Text
  import opened XmlText

  // ----- the pieces of the text

  lemma {:induction false} NameAtName(name: string, rest: string)
    requires forall c :: c in name ==> IsNameChar(c)
    requires rest == [] || !IsNameChar(rest[0])
    ensures NameAt(name + rest) == name
  {
    if name != [] {
      assert name[0] in name;
      assert (name + rest)[1..] == name[1..] + rest;
      NameAtName(name[1..], rest);
    } else {
      assert name + rest == rest;
    }
  }

  /** A reference is read up to its semicolon. */
  lemma ReferenceAt(name: string, rest: string)
    requires ';' !in name
    ensures
      var s := "&" + (name + (";" + rest));
      ';' in s[1..] && BeforeFirst(s[1..], ';') == name && s[|name| + 2..] == rest
  {
    var s := "&" + (name + (";" + rest));
    assert s[1..] == name + [';'] + rest;
    assert s[1 + |name|] == ';';
    BeforeFirstAt(name, ';', rest);
  }

  lemma Predefined()
    ensures Resolve("amp") == Some('&') && Resolve("lt") == Some('<') && Resolve("gt") == Some('>')
    ensures Resolve("quot") == Some('"')
  {
  }

  /** The entity the writer uses for a character, or none. */
  function EntityFor(c: char): Option<string> {
    if c == '&' then Some("amp")
    else if c == '<' then Some("lt")
    else if c == '>' then Some("gt")
    else if c == '"' then Some("quot")
    else None
  }

  lemma EscapesAreEntities(c: char, rest: string)
    ensures
      match EntityFor(c)
      case None => EscapeValueChar(c) == [c]
      case Some(name) =>
        ';' !in name && Resolve(name) == Some(c) && EscapeValueChar(c) + rest == "&" + (name + (";" + rest))
  {
    Predefined();
  }

  // ----- attribute values

  lemma NormalizedReference(name: string, c: char, rest: string)
    requires ';' !in name && Resolve(name) == Some(c)
    ensures
      Normalized("&" + (name + (";" + rest))) == Before(c, Normalized(rest))
  {
    hide Resolve;
    ReferenceAt(name, rest);
  }

  /** `Joined` for values: one more character before the rest. */
  function Before(c: char, rest: Option<string>): Option<string> {
    if rest.None? then None else Some([c] + rest.value)
  }

  lemma LineEndAt(rest: string)
    ensures Normalized("\r\n" + rest) == Before(' ', Normalized(rest))
    ensures Spaced("\r\n" + rest) == [' '] + Spaced(rest)
  {
    assert ("\r\n" + rest)[2..] == rest;
  }

  lemma CharAt(c: char, rest: string)
    requires c != '&' && !(c == '\r' && "\n" <= rest)
    ensures
      var spaced := if IsBlank(c) then ' ' else c;
      Normalized([c] + rest) == Before(spaced, Normalized(rest)) && Spaced([c] + rest) == [spaced] + Spaced(rest)
  {
    assert ([c] + rest)[1..] == rest;
  }

  lemma ReferenceStaysSpaced(c: char, rest: string)
    requires !IsBlank(c)
    ensures Spaced([c] + rest) == [c] + Spaced(rest)
  {
    var s := [c] + rest;
    assert s[0] == c && s[1..] == rest;
    assert !("\r\n" <= s);
  }

  lemma EscapeStarts(s: string)
    ensures "\n" <= s <==> "\n" <= EscapeValue(s)
  {
  }

  lemma EscapeTwo(s: string)
    requires "\r\n" <= s
    ensures EscapeValue(s) == "\r\n" + EscapeValue(s[2..])
    ensures s == "\r\n" + s[2..]
  {
    assert s[1..][1..] == s[2..];
  }

  /** An escaped value is read as the value was written, references and all. */
  lemma {:induction false} EscapedValueReads(s: string)
    ensures Normalized(EscapeValue(s)) == Some(Spaced(s))
    decreases |s|
  {
    hide Resolve, Normalized, Spaced, EscapeValueChar;
    if s == [] {
      EmptyValue();
    } else {
      var c, rest := s[0], s[1..];
      assert s == [c] + rest;
      EscapesAreEntities(c, EscapeValue(rest));
      if EntityFor(c).Some? {
        EscapedValueReads(rest);
        NormalizedReference(EntityFor(c).value, c, EscapeValue(rest));
        ReferenceStaysSpaced(c, rest);
      } else if "\r\n" <= s {
        EscapeTwo(s);
        EscapedValueReads(s[2..]);
        LineEndAt(EscapeValue(s[2..]));
        LineEndAt(s[2..]);
      } else {
        EscapedValueReads(rest);
        EscapeStarts(rest);
        assert c == '\r' && "\n" <= rest ==> "\r\n" <= s;
        CharAt(c, EscapeValue(rest));
        CharAt(c, rest);
      }
    }
  }

  lemma EmptyValue()
    ensures Normalized("") == Some("") && Spaced("") == ""
  {
  }

  lemma {:induction false} EscapedHasNoQuote(s: string)
    ensures '"' !in EscapeValue(s)
  {
    if s != [] {
      EscapedHasNoQuote(s[1..]);
    }
  }

  lemma EscapedValueIs(s: string)
    ensures Value(EscapeValue(s)) == Spaced(s)
  {
    EscapedValueReads(s);
  }

  // ----- tags

  predicate KeysAreNames(attributes: seq<Attribute>) {
    forall a :: a in attributes ==> IsName(a.key)
  }

  /** Events as the reader reports them: tags, attributes and closing tags have names, and a reference ends at its first
      semicolon. */
  predicate Writable(event: Event) {
    match event
    case Start(tag) => IsName(tag.name) && KeysAreNames(tag.attributes)
    case Empty(tag) => IsName(tag.name) && KeysAreNames(tag.attributes)
    case End(name) => IsName(name)
    case GeneralRef(name) => ';' !in name
    case _ => true
  }

  lemma AttributeReads(key: string, value: string, rest: string)
    requires IsName(key) && '"' !in value
    ensures ReadAttribute(key + ("=\"" + (value + ("\"" + rest)))) == Some((Attribute(key, Value(value)), rest))
  {
    hide Value;
    var tail := value + ("\"" + rest);
    NameAtName(key, "=\"" + tail);
    assert (key + ("=\"" + tail))[|key|..] == "=\"" + tail;
    assert ("=\"" + tail)[2..] == tail;
    assert tail == value + ['"'] + rest;
    BeforeFirstAt(value, '"', rest);
    assert tail[|value|] == '"';
    assert tail[|value| + 1..] == rest;
  }

  lemma FirstAttribute(s: string, a: Attribute, rest: string)
    requires ReadAttribute(s) == Some((a, rest))
    ensures ReadAttributes([' '] + s) == Listed(a, ReadAttributes(rest))
  {
    hide ReadAttribute;
    assert ([' '] + s)[1..] == s;
  }

  lemma Regroup(a: Attribute, rest: string)
    ensures
      WriteAttribute(a) + rest == [' '] + (a.key + ("=\"" + (EscapeValue(a.value) + ("\"" + rest))))
  {
    hide EscapeValue;
    var value := EscapeValue(a.value);
    assert (value + "\"") + rest == value + ("\"" + rest);
    assert ("=\"" + (value + "\"")) + rest == "=\"" + ((value + "\"") + rest);
    assert (a.key + ("=\"" + (value + "\""))) + rest == a.key + (("=\"" + (value + "\"")) + rest);
  }

  lemma WrittenAttributeReads(a: Attribute, rest: string)
    requires IsName(a.key)
    ensures
      ReadAttributes(WriteAttribute(a) + rest) == Listed(Attribute(a.key, Spaced(a.value)), ReadAttributes(rest))
  {
    hide *;
    Regroup(a, rest);
    EscapedHasNoQuote(a.value);
    EscapedValueIs(a.value);
    AttributeReads(a.key, EscapeValue(a.value), rest);
    FirstAttribute(a.key + ("=\"" + (EscapeValue(a.value) + ("\"" + rest))), Attribute(a.key, Spaced(a.value)), rest);
  }

  lemma NoAttribute(rest: string)
    requires rest != [] && rest[0] != ' '
    ensures ReadAttributes(rest) == Some(([], rest))
  {
  }

  lemma ValuesOneMore(attributes: seq<Attribute>, value: string -> string)
    requires attributes != []
    ensures
      Values(attributes, value)
      == [Attribute(attributes[0].key, value(attributes[0].value))] + Values(attributes[1..], value)
  {
  }

  lemma {:induction false} AttributesRead(attributes: seq<Attribute>, rest: string)
    requires KeysAreNames(attributes) && rest != [] && rest[0] != ' '
    ensures ReadAttributes(WriteAttributes(attributes) + rest) == Some((Values(attributes, Spaced), rest))
  {
    hide ReadAttributes, WriteAttribute, IsName, Values;
    if attributes == [] {
      assert WriteAttributes(attributes) + rest == rest;
      NoAttribute(rest);
      NoValues(Spaced);
    } else {
      var a := attributes[0];
      assert a in attributes;
      AttributesRead(attributes[1..], rest);
      assert WriteAttributes(attributes) + rest
          == WriteAttribute(a) + (WriteAttributes(attributes[1..]) + rest);
      WrittenAttributeReads(a, WriteAttributes(attributes[1..]) + rest);
      ValuesOneMore(attributes, Spaced);
    }
  }

  lemma NoValues(value: string -> string)
    ensures Values([], value) == []
  {
  }

  /** After the name of a tag come its attributes or its end, so the name stops there. */
  lemma NameOfTag(tag: Tag, end: string)
    requires IsName(tag.name) && end in {">", "/>"}
    ensures forall rest :: NameAt(tag.name + ((WriteAttributes(tag.attributes) + end) + rest)) == tag.name
  {
    forall rest: string
      ensures NameAt(tag.name + ((WriteAttributes(tag.attributes) + end) + rest)) == tag.name
    {
      var after := (WriteAttributes(tag.attributes) + end) + rest;
      assert after[0] in {' ', '>', '/'};
      NameAtName(tag.name, after);
    }
  }

  lemma TagReads(tag: Tag, end: string, rest: string)
    requires IsName(tag.name) && KeysAreNames(tag.attributes) && end in {">", "/>"}
    ensures
      ReadStartTag(tag.name + ((WriteAttributes(tag.attributes) + end) + rest))
      == Some((if end == ">" then Items(Start(tag), Spaced) else Items(Empty(tag), Spaced), rest))
  {
    hide ReadAttributes, WriteAttributes, Values, NameAt, IsNameChar;
    var written := WriteAttributes(tag.attributes);
    var s := tag.name + ((written + end) + rest);
    NameOfTag(tag, end);
    assert (written + end) + rest == written + (end + rest);
    assert s[|tag.name|..] == written + (end + rest);
    AttributesRead(tag.attributes, end + rest);
    assert (end + rest)[|end|..] == rest;
    if end == ">" {
      assert ">" <= end + rest;
    } else {
      assert (end + rest)[0] == '/';
      assert "/>" <= end + rest;
    }
  }

  // ----- events

  lemma NextItems(s: string, items: seq<Item>, rest: string)
    requires s != [] && ReadNext(s) == Some((items, rest))
    ensures ReadAll(s) == Joined(items, ReadAll(rest))
  {
    hide ReadNext;
  }

  lemma StartReads(event: Event, rest: string)
    requires (event.Start? || event.Empty?) && Writable(event)
    ensures ReadAll(Write(event) + rest) == Joined(Items(event, Spaced), ReadAll(rest))
  {
    hide ReadAll, Joined, ReadStartTag, WriteAttributes, Items, KeysAreNames;
    var tag := event.tag;
    var end := if event.Start? then ">" else "/>";
    var body := tag.name + ((WriteAttributes(tag.attributes) + end) + rest);
    assert Write(event) + rest == "<" + body;
    TagReads(tag, end, rest);
    assert IsNameChar(tag.name[0]) by {
      assert tag.name[0] in tag.name;
    }
    assert body[0] == tag.name[0];
    assert ("<" + body)[1..] == body;
    NextItems("<" + body, Items(event, Spaced), rest);
  }

  lemma EndReads(name: string, rest: string)
    requires IsName(name)
    ensures ReadAll(Write(End(name)) + rest) == Joined([Close(name)], ReadAll(rest))
  {
    hide ReadAll, Joined, NameAt, IsNameChar;
    var body := name + (">" + rest);
    assert Write(End(name)) + rest == "</" + body;
    EndTagReads(name, rest);
    assert ("</" + body)[2..] == body;
    NextItems("</" + body, [Close(name)], rest);
  }

  lemma EndTagReads(name: string, rest: string)
    requires IsName(name)
    ensures ReadEndTag(name + (">" + rest)) == Some(([Close(name)], rest))
  {
    var body := name + (">" + rest);
    NameAtName(name, ">" + rest);
    assert body[|name|..] == ">" + rest;
    assert body[|name| + 1..] == rest;
  }

  lemma ReferenceReads(name: string, rest: string)
    requires ';' !in name
    ensures ReadAll("&" + (name + (";" + rest))) == Joined(Resolved(name), ReadAll(rest))
  {
    hide ReadAll, Joined, Resolved, BeforeFirst;
    ReferenceAt(name, rest);
    var s := "&" + (name + (";" + rest));
    assert s[0] == '&';
    NextItems(s, Resolved(name), rest);
  }

  lemma EscapedCharReads(c: char, rest: string)
    ensures ReadAll(EscapeTextChar(c) + rest) == Joined([Character(c)], ReadAll(rest))
  {
    hide ReadAll, Joined;
    Predefined();
    if c == '&' {
      assert EscapeTextChar(c) + rest == "&" + ("amp" + (";" + rest));
      ReferenceReads("amp", rest);
    } else if c == '<' {
      assert EscapeTextChar(c) + rest == "&" + ("lt" + (";" + rest));
      ReferenceReads("lt", rest);
    } else if c == '>' {
      assert EscapeTextChar(c) + rest == "&" + ("gt" + (";" + rest));
      ReferenceReads("gt", rest);
    } else {
      var s := [c] + rest;
      assert s[0] == c && s[1..] == rest;
      NextItems(s, [Character(c)], rest);
    }
  }

  lemma JoinedTwice(a: seq<Item>, b: seq<Item>, rest: Option<seq<Item>>)
    ensures Joined(a, Joined(b, rest)) == Joined(a + b, rest)
  {
    if rest.Some? {
      assert a + (b + rest.value) == (a + b) + rest.value;
    }
  }

  lemma {:induction false} TextReads(text: string, rest: string)
    ensures ReadAll(EscapeText(text) + rest) == Joined(Characters(text), ReadAll(rest))
  {
    hide ReadAll, EscapeTextChar, Joined;
    if text == [] {
      assert EscapeText(text) + rest == rest;
      JoinedNothing(ReadAll(rest));
    } else {
      var c, more := text[0], text[1..];
      TextReads(more, rest);
      assert EscapeText(text) + rest == EscapeTextChar(c) + (EscapeText(more) + rest);
      EscapedCharReads(c, EscapeText(more) + rest);
      JoinedTwice([Character(c)], Characters(more), ReadAll(rest));
      assert Characters(text) == [Character(c)] + Characters(more);
    }
  }

  lemma JoinedNothing(rest: Option<seq<Item>>)
    ensures Joined([], rest) == rest
  {
    if rest.Some? {
      assert [] + rest.value == rest.value;
    }
  }

  /** One event is read back as itself, whatever follows. */
  lemma EventReads(event: Event, rest: string)
    requires Writable(event)
    ensures ReadAll(Write(event) + rest) == Joined(Items(event, Spaced), ReadAll(rest))
  {
    hide ReadAll, Joined, EscapeText, Resolved, WriteAttributes, Values;
    match event
    case Start(_) => StartReads(event, rest);
    case Empty(_) => StartReads(event, rest);
    case End(name) => EndReads(name, rest);
    case Text(text) => TextReads(text, rest);
    case CData(text) => TextReads(text, rest);
    case GeneralRef(name) =>
      assert Write(event) + rest == "&" + (name + (";" + rest));
      ReferenceReads(name, rest);
    case Other =>
      assert Write(event) + rest == rest;
      JoinedNothing(ReadAll(rest));
  }

  /** Reading the written events gathers the same nesting, names and text, and every attribute as it was written. */
  lemma {:induction false} EventsRead(events: seq<Event>, rest: string)
    requires forall event :: event in events ==> Writable(event)
    ensures ReadAll(WriteAll(events) + rest) == Joined(AllItems(events, Spaced), ReadAll(rest))
  {
    hide ReadAll, Joined, Write, Writable, Items;
    if events == [] {
      assert WriteAll(events) + rest == rest;
      JoinedNothing(ReadAll(rest));
    } else {
      var event := events[0];
      EventsRead(events[1..], rest);
      assert WriteAll(events) + rest == Write(event) + (WriteAll(events[1..]) + rest);
      EventReads(event, WriteAll(events[1..]) + rest);
      JoinedTwice(Items(event, Spaced), AllItems(events[1..], Spaced), ReadAll(rest));
    }
  }

  // ----- which attributes survive

  predicate OneLine(s: string) {
    forall c :: c in s ==> !IsBlank(c) || c == ' '
  }

  /** An attribute value keeps its meaning when it is escaped again: it holds no '&', or one that is no reference, and
      then no white space that normalizing would change either. */
  predicate Survives(raw: string) {
    '&' !in raw || (Normalized(raw).None? && OneLine(raw))
  }

  lemma {:induction false} NormalizedPlain(s: string)
    requires '&' !in s
    ensures Normalized(s) == Some(Spaced(s))
    decreases |s|
  {
    hide Resolve;
    if s != [] {
      if "\r\n" <= s {
        NormalizedPlain(s[2..]);
      } else {
        NormalizedPlain(s[1..]);
      }
    }
  }

  lemma {:induction false} SpacedFixed(s: string)
    ensures Spaced(s) == s <==> OneLine(s)
    decreases |s|
  {
    if s != [] {
      if "\r\n" <= s {
        SpacedLength(s[2..]);
        assert s[0] in s;
      } else {
        var rest := s[1..];
        SpacedFixed(rest);
        assert s == [s[0]] + rest;
        assert OneLine(s) <==> (!IsBlank(s[0]) || s[0] == ' ') && OneLine(rest) by {
          assert forall c :: c in s <==> c == s[0] || c in rest;
        }
        var spaced := if IsBlank(s[0]) then ' ' else s[0];
        assert Spaced(s) == [spaced] + Spaced(rest);
        assert Spaced(s) == s <==> spaced == s[0] && Spaced(rest) == rest by {
          if Spaced(s) == s {
            assert Spaced(s)[1..] == Spaced(rest);
          }
        }
      }
    }
  }

  lemma {:induction false} SpacedLength(s: string)
    ensures |Spaced(s)| <= |s|
    decreases |s|
  {
    if s != [] {
      if "\r\n" <= s {
        SpacedLength(s[2..]);
      } else {
        SpacedLength(s[1..]);
      }
    }
  }

  lemma {:induction false} SpacedAppend(plain: string, rest: string)
    requires forall c :: c in plain ==> !IsBlank(c)
    ensures Spaced(plain + rest) == plain + Spaced(rest)
  {
    hide Spaced;
    if plain == [] {
      assert plain + rest == rest;
    } else {
      assert plain[0] in plain;
      assert plain + rest == [plain[0]] + (plain[1..] + rest);
      ReferenceStaysSpaced(plain[0], plain[1..] + rest);
      SpacedAppend(plain[1..], rest);
    }
  }

  lemma {:induction false} HexIsPlain(s: string)
    requires HexValue(s).Some?
    ensures forall c :: c in s ==> !IsBlank(c)
  {
    if s != [] {
      HexIsPlain(s[..|s| - 1]);
      assert s == s[..|s| - 1] + [s[|s| - 1]];
    }
  }

  lemma ReferenceNameIsPlain(name: string)
    requires Resolve(name).Some?
    ensures name != [] && forall c :: c in name ==> !IsBlank(c)
  {
    if name != [] && name[0] == '#' {
      var digits := name[1..];
      if digits[0] == 'x' {
        HexIsPlain(digits[1..]);
        assert digits == ['x'] + digits[1..];
      }
      assert name == ['#'] + digits;
    }
  }

  lemma ReferenceParts(s: string)
    requires s != [] && s[0] == '&' && ';' in s[1..]
    ensures
      var name := BeforeFirst(s[1..], ';');
      |name| + 2 <= |s| && s == ("&" + name + ";") + s[|name| + 2..]
  {
    var name := BeforeFirst(s[1..], ';');
    assert s[1..][..|name| + 1] == name + [';'];
    assert s == ("&" + name + ";") + s[|name| + 2..];
  }

  /** A resolved reference is shorter than it was written. */
  lemma {:induction false} ReferencesShorten(s: string)
    requires Normalized(s).Some?
    ensures |Normalized(s).value| <= |Spaced(s)|
    ensures '&' in s ==> |Normalized(s).value| < |Spaced(s)|
    decreases |s|
  {
    hide Resolve, BeforeFirst;
    if s != [] {
      if s[0] == '&' {
        ReferenceParts(s);
        var name := BeforeFirst(s[1..], ';');
        var rest := s[|name| + 2..];
        ReferenceNameIsPlain(name);
        ReferencesShorten(rest);
        SpacedAppend("&" + name + ";", rest);
      } else if "\r\n" <= s {
        ReferencesShorten(s[2..]);
        assert s == "\r\n" + s[2..];
      } else {
        ReferencesShorten(s[1..]);
        assert s == [s[0]] + s[1..];
      }
    }
  }

  lemma AttributeSurvives(raw: string)
    ensures Value(raw) == Spaced(raw) <==> Survives(raw)
  {
    hide Normalized, Spaced, OneLine;
    if '&' !in raw {
      NormalizedPlain(raw);
    } else if Normalized(raw).Some? {
      ReferencesShorten(raw);
    } else {
      SpacedFixed(raw);
    }
  }

  predicate EventSurvives(event: Event) {
    event.Start? || event.Empty? ==> forall a :: a in event.tag.attributes ==> Survives(a.value)
  }

  lemma ValuesSurvive(attributes: seq<Attribute>)
    ensures
      Values(attributes, Value) == Values(attributes, Spaced) <==> (forall a :: a in attributes ==> Survives(a.value))
  {
    hide Survives, Value, Spaced;
    var read, written := Values(attributes, Value), Values(attributes, Spaced);
    forall a: Attribute
      ensures Value(a.value) == Spaced(a.value) <==> Survives(a.value)
    {
      AttributeSurvives(a.value);
    }
    if read == written {
      forall a | a in attributes
        ensures Survives(a.value)
      {
        var i :| 0 <= i < |attributes| && attributes[i] == a;
        assert read[i] == written[i];
      }
    }
  }

  lemma ItemsSurvive(event: Event)
    ensures Items(event, Value) == Items(event, Spaced) <==> EventSurvives(event)
    ensures |Items(event, Value)| == |Items(event, Spaced)|
  {
    hide Values, Survives, Value, Spaced;
    if event.Start? || event.Empty? {
      ValuesSurvive(event.tag.attributes);
      assert Items(event, Value)[0].attributes == Values(event.tag.attributes, Value);
      assert Items(event, Spaced)[0].attributes == Values(event.tag.attributes, Spaced);
    }
  }

  lemma {:induction false} AllItemsSurvive(events: seq<Event>)
    ensures
      AllItems(events, Value) == AllItems(events, Spaced)
      <==>
      (forall event :: event in events ==> EventSurvives(event))
  {
    hide Items, Value, Spaced, EventSurvives;
    if events != [] {
      var event, rest := events[0], events[1..];
      AllItemsSurvive(rest);
      ItemsSurvive(event);
      var a, b := Items(event, Value), Items(event, Spaced);
      var c, d := AllItems(rest, Value), AllItems(rest, Spaced);
      assert a + c == b + d <==> a == b && c == d by {
        if a + c == b + d {
          assert a == (a + c)[..|a|] && b == (b + d)[..|a|];
          assert c == (a + c)[|a|..] && d == (b + d)[|a|..];
        }
      }
      assert events == [event] + rest;
      assert (forall e :: e in events ==> EventSurvives(e))
        <==> EventSurvives(event) && (forall e :: e in rest ==> EventSurvives(e)) by {
        assert forall e :: e in events <==> e == event || e in rest;
      }
    }
  }

  /** The written events read back as they were, nesting, attributes and text, exactly when every attribute survives
      being escaped again; in particular when no value is written with an '&'. */
  lemma ReadsBack(events: seq<Event>)
    requires forall event :: event in events ==> Writable(event)
    ensures ReadAll(WriteAll(events)) == Some(AllItems(events, Spaced))
    ensures
      ReadAll(WriteAll(events)) == Some(AllItems(events, Value))
      <==>
      (forall event :: event in events ==> EventSurvives(event))
  {
    hide WriteAll, AllItems, Writable, EventSurvives;
    EventsRead(events, "");
    assert WriteAll(events) + "" == WriteAll(events);
    NothingToRead(AllItems(events, Spaced));
    AllItemsSurvive(events);
  }

  lemma NothingToRead(items: seq<Item>)
    ensures Joined(items, ReadAll("")) == Some(items)
  {
    assert items + [] == items;
  }

  /** A reference in an attribute is lost: a value written "&amp;", which stands for "&", comes back as "&amp;". */
  lemma ReferenceInAttributeIsLost()
    ensures Value("&amp;") == "&" && Value(EscapeValue("&amp;")) == "&amp;"
  {
    hide Normalized, Resolve, EscapeValue;
    Predefined();
    assert "&amp;" == "&" + ("amp" + (";" + ""));
    NormalizedReference("amp", '&', "");
    EmptyValue();
    EscapedValueIs("&amp;");
    SpacedFixed("&amp;");
  }
}
