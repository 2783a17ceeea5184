/** Reading the response messages of an Exchange reply (src/exchange_ews/parse.rs:591-729): the contents of Items,
    Attachments and Folders are copied as text, to be parsed later. The reader's events are given as a sequence; its end
    is the end of the document. */
module XmlCapture {
  import opened ResponseCodes
  import opened Text
  import opened Wrappers
  import opened XmlText

  // ----- names

  /** The name without its prefix. */
  function Local(name: string): string {
    if ':' in name then name[|BeforeFirst(name, ':')| + 1..] else name
  }

  predicate SameLetters(a: string, b: string) {
    Lower(a) == Lower(b)
  }

  /** `is` for the namespace of messages. */
  predicate IsMessages(tag: Tag, local: string) {
    tag.namespace == Messages && SameLetters(Local(tag.name), local)
  }

  predicate StartsCapture(tag: Tag) {
    IsMessages(tag, "Items") || IsMessages(tag, "Attachments") || IsMessages(tag, "Folders")
  }

  datatype Field = CodeField | TextField

  /** The element whose text is read as a field of the message. */
  function FieldOf(tag: Tag): Option<Field> {
    if IsMessages(tag, "ResponseCode") then Some(CodeField)
    else if IsMessages(tag, "MessageText") then Some(TextField)
    else None
  }

  // ----- one event

  /** What has been gathered: the fields of the message, and the field the next text belongs to. */
  datatype Gathered = Gathered(code: ResponseCode, text: string, inner: string, current: Option<Field>)

  /** `depth` counts the open elements, the message itself included; `captured` those from the captured one on, and is 0
      outside a capture. */
  datatype State = State(gathered: Gathered, depth: nat, captured: nat)

  const INITIAL: State := State(Gathered(NoError, "", "", None), 1, 0)

  function Hear(g: Gathered, text: string): Gathered {
    match g.current
    case Some(CodeField) => g.(code := ParseCode(Trim(text)))
    case Some(TextField) => g.(text := text)
    case None => g
  }

  function Copy(g: Gathered, event: Event): Gathered {
    g.(inner := g.inner + Write(event))
  }

  function Step(st: State, event: Event): State {
    var g := st.gathered;
    match event
    case Start(tag) =>
      if st.captured > 0 then State(Copy(g, event), st.depth + 1, st.captured + 1)
      else if FieldOf(tag).Some? then State(g.(current := FieldOf(tag)), st.depth + 1, 0)
      else State(g.(current := None), st.depth + 1, if StartsCapture(tag) then 1 else 0)
    case End(_) =>
      var copied := if st.captured > 1 then Copy(g, event) else g;
      State(copied.(current := None),
            if st.depth == 0 then 0 else st.depth - 1,
            if st.captured == 0 then 0 else st.captured - 1)
    case Text(text) => st.(gathered := if st.captured > 0 then Copy(g, event) else Hear(g, text))
    case _ => st.(gathered := if st.captured > 0 then Copy(g, event) else g)
  }

  /** A message read: the state at its end, and the number of events used. */
  datatype Stop = Stop(state: State, read: nat)

  function Ahead(n: nat, stop: Stop): Stop {
    Stop(stop.state, stop.read + n)
  }

  predicate Stops(st: State, event: Event) {
    event.End? && Step(st, event).depth == 0
  }

  function Run(events: seq<Event>, st: State): (stop: Stop)
    ensures stop.read <= |events|
  {
    if events == [] then Stop(st, 0)
    else if Stops(st, events[0]) then Stop(Step(st, events[0]), 1)
    else Ahead(1, Run(events[1..], Step(st, events[0])))
  }

  lemma RunEnds(events: seq<Event>, st: State)
    ensures Run(events[|events|..], st) == Stop(st, 0)
  {
  }

  lemma RunNext(events: seq<Event>, i: nat, st: State)
    requires i < |events|
    ensures
      Run(events[i..], st)
      == if Stops(st, events[i]) then Stop(Step(st, events[i]), 1)
         else Ahead(1, Run(events[i + 1..], Step(st, events[i])))
  {
    assert events[i..][1..] == events[i + 1..];
  }

  // ----- the message

  datatype Message = Message(success: bool, code: ResponseCode, text: string, inner: string)

  const HOST := "http://schemas.microsoft.com"
  const PATH := "/exchange/services/2006/"
  const NS_TYPES := HOST + PATH + "types"
  const NS_MESSAGES := HOST + PATH + "messages"

  const INNER := "vandelay-inner"
  const INNER_TAG: Tag :=
    Tag(OtherNamespace, INNER,
        [Attribute("xmlns", NS_TYPES), Attribute("xmlns:t", NS_TYPES), Attribute("xmlns:m", NS_MESSAGES)])

  /** A namespace declaration in a tag. */
  function Declaration(key: string, namespace: string): string {
    [' '] + (key + ("=\"" + (namespace + "\"")))
  }

  /** `wrap_inner_with_namespaces`. */
  function WrapInner(inner: string): string {
    if inner == "" then ""
    else
      "<" + (INNER + ((Declaration("xmlns", NS_TYPES)
                       + (Declaration("xmlns:t", NS_TYPES) + Declaration("xmlns:m", NS_MESSAGES))) + ">"))
      + inner + ("</" + (INNER + ">"))
  }

  function MessageOf(responseClass: string, g: Gathered): Message {
    Message(responseClass in {"Success", "Warning"}, g.code, g.text, WrapInner(g.inner))
  }

  // ----- the writers and the loop

  /** The body `write_start_xml` and `write_empty_xml` share; `end` closes the tag. */
  method WriteTag(out: string, tag: Tag, end: string) returns (written: string)
    ensures written == out + ("<" + (tag.name + (WriteAttributes(tag.attributes) + end)))
  {
    hide WriteAttributes, WriteAttribute, EscapeValue;
    written := out + "<" + tag.name;
    NoAttributes(written);
    for i := 0 to |tag.attributes|
      invariant written == (out + "<" + tag.name) + WriteAttributes(tag.attributes[..i])
    {
      var a := tag.attributes[i];
      ghost var before := written;
      written := written + " " + a.key + "=\"";
      written := WriteValue(written, a.value);
      written := written + "\"";
      AttributeWritten(before, a);
      WriteAttributesAppend(tag.attributes[..i], a);
      assert tag.attributes[..i + 1] == tag.attributes[..i] + [a];
      Associative(out + "<" + tag.name, WriteAttributes(tag.attributes[..i]), WriteAttribute(a));
    }
    assert tag.attributes[..|tag.attributes|] == tag.attributes;
    written := written + end;
    TagWritten(out, tag.name, WriteAttributes(tag.attributes), end);
  }

  lemma NoAttributes(s: string)
    ensures s + WriteAttributes([]) == s
  {
  }

  lemma AttributeWritten(out: string, a: Attribute)
    ensures out + " " + a.key + "=\"" + EscapeValue(a.value) + "\"" == out + WriteAttribute(a)
  {
    hide EscapeValue;
    var value := EscapeValue(a.value);
    Associative(out + " " + a.key + "=\"", value, "\"");
    Associative(out + " " + a.key, "=\"", value + "\"");
    Associative(out + " ", a.key, "=\"" + (value + "\""));
    Associative(out, " ", a.key + ("=\"" + (value + "\"")));
  }

  lemma TagWritten(out: string, name: string, attributes: string, end: string)
    ensures out + "<" + name + attributes + end == out + ("<" + (name + (attributes + end)))
  {
    Associative(out + "<" + name, attributes, end);
    Associative(out + "<", name, attributes + end);
    Associative(out, "<", name + (attributes + end));
  }

  /** `write_end_xml_event`. */
  method WriteEnd(out: string, name: string) returns (written: string)
    ensures written == out + Write(End(name))
  {
    written := out + "</" + name + ">";
    Associative(out + "</", name, ">");
    Associative(out, "</", name + ">");
  }

  method WriteValue(out: string, value: string) returns (written: string)
    ensures written == out + EscapeValue(value)
  {
    hide EscapeValue;
    written := out;
    NothingEscaped(out);
    for i := 0 to |value|
      invariant written == out + EscapeValue(value[..i])
    {
      Associative(out, EscapeValue(value[..i]), EscapeValueChar(value[i]));
      match value[i] {
        case '&' => written := written + "&amp;";
        case '<' => written := written + "&lt;";
        case '>' => written := written + "&gt;";
        case '"' => written := written + "&quot;";
        case c => written := written + [c];
      }
      EscapeValueAppend(value[..i], value[i]);
      assert value[..i + 1] == value[..i] + [value[i]];
    }
    assert value[..|value|] == value;
  }

  /** `write_text_xml`. */
  method WriteText(out: string, text: string) returns (written: string)
    ensures written == out + EscapeText(text)
  {
    hide EscapeText;
    written := out;
    NothingEscaped(out);
    for i := 0 to |text|
      invariant written == out + EscapeText(text[..i])
    {
      Associative(out, EscapeText(text[..i]), EscapeTextChar(text[i]));
      match text[i] {
        case '&' => written := written + "&amp;";
        case '<' => written := written + "&lt;";
        case '>' => written := written + "&gt;";
        case c => written := written + [c];
      }
      EscapeTextAppend(text[..i], text[i]);
      assert text[..i + 1] == text[..i] + [text[i]];
    }
    assert text[..|text|] == text;
  }

  lemma NothingEscaped(out: string)
    ensures out + EscapeText("") == out && out + EscapeValue("") == out
  {
  }

  lemma {:induction false} EscapeTextAppend(s: string, c: char)
    ensures EscapeText(s + [c]) == EscapeText(s) + EscapeTextChar(c)
  {
    hide EscapeTextChar;
    if s == [] {
      assert s + [c] == [c] && EscapeText([]) == [];
    } else {
      EscapeTextAppend(s[1..], c);
      assert (s + [c])[1..] == s[1..] + [c];
    }
  }

  lemma {:induction false} EscapeValueAppend(s: string, c: char)
    ensures EscapeValue(s + [c]) == EscapeValue(s) + EscapeValueChar(c)
  {
    hide EscapeValueChar;
    if s == [] {
      assert s + [c] == [c] && EscapeValue([]) == [];
    } else {
      EscapeValueAppend(s[1..], c);
      assert (s + [c])[1..] == s[1..] + [c];
    }
  }

  lemma {:induction false} WriteAttributesAppend(attributes: seq<Attribute>, a: Attribute)
    ensures WriteAttributes(attributes + [a]) == WriteAttributes(attributes) + WriteAttribute(a)
  {
    hide WriteAttribute;
    if attributes == [] {
      assert attributes + [a] == [a] && WriteAttributes([]) == [];
    } else {
      WriteAttributesAppend(attributes[1..], a);
      assert (attributes + [a])[1..] == attributes[1..] + [a];
    }
  }

  /** The XML reader: the events of a document, read from `pos` on. */
  class Reader {
    const events: seq<Event>
    var pos: nat

    ghost predicate Valid()
      reads this
    {
      pos <= |events|
    }

    constructor (events: seq<Event>)
      ensures Valid() && this.events == events && pos == 0
    {
      this.events := events;
      pos := 0;
    }

    /** `read_resolved_event_into`; None is the end of the document. */
    method Next() returns (event: Option<Event>)
      requires Valid()
      modifies this`pos
      ensures Valid()
      ensures old(pos) == |events| ==> event == None && pos == old(pos)
      ensures old(pos) < |events| ==> event == Some(events[old(pos)]) && pos == old(pos) + 1
    {
      if pos == |events| {
        return None;
      }
      event := Some(events[pos]);
      pos := pos + 1;
    }
  }

  /** `parse_one_response_message`. */
  method ParseOneResponseMessage(xml: Reader, responseClass: string) returns (message: Message)
    requires xml.Valid()
    modifies xml`pos
    ensures xml.Valid()
    ensures
      var stop := Run(xml.events[old(xml.pos)..], INITIAL);
      message == MessageOf(responseClass, stop.state.gathered) && xml.pos == old(xml.pos) + stop.read
  {
    hide Run, IsMessages, ParseCode, Trim, WriteAttributes, EscapeText, WrapInner;
    var code, messageText, inner := NoError, "", "";
    var depth: nat := 1;
    var current: Option<Field> := None;
    var captureDepth: nat := 0;
    ghost var whole := Run(xml.events[xml.pos..], INITIAL);
    ghost var st := INITIAL;
    while true
      invariant xml.Valid() && xml.pos >= old(xml.pos)
      invariant st == State(Gathered(code, messageText, inner, current), depth, captureDepth)
      invariant depth > captureDepth
      invariant whole == Ahead(xml.pos - old(xml.pos), Run(xml.events[xml.pos..], st))
      decreases |xml.events| - xml.pos
    {
      var event := xml.Next();
      if event.None? {
        RunEnds(xml.events, st);
        break;
      }
      RunNext(xml.events, xml.pos - 1, st);
      st := Step(st, event.value);
      var inCapture := captureDepth > 0;
      match event.value {
        case Start(tag) =>
          depth := depth + 1;
          if !inCapture && IsMessages(tag, "ResponseCode") {
            current := Some(CodeField);
          } else if !inCapture && IsMessages(tag, "MessageText") {
            current := Some(TextField);
          } else if !inCapture
              && (IsMessages(tag, "Items") || IsMessages(tag, "Attachments") || IsMessages(tag, "Folders")) {
            captureDepth := 1;
            current := None;
          } else if inCapture {
            inner := WriteTag(inner, tag, ">");
            captureDepth := captureDepth + 1;
          } else {
            current := None;
          }
        case Empty(tag) =>
          if inCapture {
            inner := WriteTag(inner, tag, "/>");
          }
        case End(name) =>
          if inCapture {
            if captureDepth == 1 {
              captureDepth := 0;
            } else {
              inner := WriteEnd(inner, name);
              captureDepth := captureDepth - 1;
            }
          }
          depth := depth - 1;
          current := None;
          if depth == 0 {
            break;
          }
        case Text(text) =>
          if inCapture {
            inner := WriteText(inner, text);
          } else {
            match current {
              case Some(CodeField) => code := ParseCode(Trim(text));
              case Some(TextField) => messageText := text;
              case None =>
            }
          }
        case CData(text) =>
          if inCapture {
            inner := WriteText(inner, text);
          }
        case GeneralRef(name) =>
          if inCapture {
            Associative(inner + "&", name, ";");
            Associative(inner, "&", name + ";");
            inner := inner + "&" + name + ";";
          }
        case Other =>
      }
    }
    message := Message(responseClass in {"Success", "Warning"}, code, messageText, WrapInner(inner));
  }

  // ----- all the messages of a reply

  /** `attr_value`: the first attribute of that name, whatever its prefix and the case of its letters. */
  function AttributeOf(attributes: seq<Attribute>, name: string): Option<string> {
    if attributes == [] then None
    else if SameLetters(Local(attributes[0].key), name) then Some(Value(attributes[0].value))
    else AttributeOf(attributes[1..], name)
  }

  function ClassOf(tag: Tag): string {
    AttributeOf(tag.attributes, "ResponseClass").GetOr("Success")
  }

  /** The messages in `events`, which are the elements named `local`. */
  function AllMessages(events: seq<Event>, local: string): seq<Message> {
    if events == [] then []
    else if events[0].Start? && IsMessages(events[0].tag, local) then
      var stop := Run(events[1..], INITIAL);
      [MessageOf(ClassOf(events[0].tag), stop.state.gathered)] + AllMessages(events[1..][stop.read..], local)
    else AllMessages(events[1..], local)
  }

  method AttrValue(tag: Tag, name: string) returns (value: Option<string>)
    ensures value == AttributeOf(tag.attributes, name)
  {
    hide Value, SameLetters, Local;
    for i := 0 to |tag.attributes|
      invariant AttributeOf(tag.attributes, name) == AttributeOf(tag.attributes[i..], name)
    {
      var a := tag.attributes[i];
      if SameLetters(Local(a.key), name) {
        return Some(Value(a.value));
      }
      assert tag.attributes[i..][1..] == tag.attributes[i + 1..];
    }
    value := None;
  }

  /** `parse_response_messages`. */
  method ParseResponseMessages(events: seq<Event>, responseMessageLocal: string) returns (messages: seq<Message>)
    ensures messages == AllMessages(events, responseMessageLocal)
  {
    hide AllMessages, Run, IsMessages, AttributeOf;
    var xml := new Reader(events);
    messages := [];
    assert events[0..] == events;
    while true
      invariant fresh(xml) && xml.Valid() && xml.events == events
      invariant
        AllMessages(events, responseMessageLocal) == messages + AllMessages(events[xml.pos..], responseMessageLocal)
      decreases |events| - xml.pos
    {
      ghost var i := xml.pos;
      var event := xml.Next();
      if event.None? {
        NoMessages(responseMessageLocal);
        assert events[i..] == [];
        break;
      }
      MessagesNext(events, i, responseMessageLocal);
      if event.value.Start? && IsMessages(event.value.tag, responseMessageLocal) {
        var responseClass := AttrValue(event.value.tag, "ResponseClass");
        var message := ParseOneResponseMessage(xml, responseClass.GetOr("Success"));
        messages := messages + [message];
      }
    }
  }

  lemma NoMessages(local: string)
    ensures AllMessages([], local) == []
  {
  }

  lemma MessagesNext(events: seq<Event>, i: nat, local: string)
    requires i < |events|
    ensures
      AllMessages(events[i..], local)
      == (if events[i].Start? && IsMessages(events[i].tag, local) then
            var stop := Run(events[i + 1..], INITIAL);
            [MessageOf(ClassOf(events[i].tag), stop.state.gathered)]
            + AllMessages(events[i + 1 + stop.read..], local)
          else AllMessages(events[i + 1..], local))
  {
    hide Run, MessageOf, ClassOf, IsMessages;
    assert events[i..][1..] == events[i + 1..];
    var stop := Run(events[i + 1..], INITIAL);
    assert events[i + 1..][stop.read..] == events[i + 1 + stop.read..];
  }
}
