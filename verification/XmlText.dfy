/** Writing XML events as text and reading the text back (src/exchange_ews/parse.rs:554-566 and 722-790). An event is
    what the XML reader reports: attribute values and text are as they stand in the document, and an entity or
    character reference is an event of its own. */
module XmlText {
  import opened Wrappers
  import opened Text

  datatype Namespace = Messages | Types | OtherNamespace

  /** A name with its prefix, and the value as written between the quotes. */
  datatype Attribute = Attribute(key: string, value: string)

  datatype Tag = Tag(namespace: Namespace, name: string, attributes: seq<Attribute>)

  datatype Event =
    | Start(tag: Tag)
    | Empty(tag: Tag)
    | End(name: string)
    | Text(text: string)
    | CData(text: string)
    | GeneralRef(name: string)
    | Other // a comment, a processing instruction or a declaration

  // ----- the writer

  function EscapeTextChar(c: char): string {
    if c == '&' then "&amp;"
    else if c == '<' then "&lt;"
    else if c == '>' then "&gt;"
    else [c]
  }

  function EscapeValueChar(c: char): string {
    if c == '"' then "&quot;" else EscapeTextChar(c)
  }

  function EscapeText(s: string): string {
    if s == [] then [] else EscapeTextChar(s[0]) + EscapeText(s[1..])
  }

  function EscapeValue(s: string): string {
    if s == [] then [] else EscapeValueChar(s[0]) + EscapeValue(s[1..])
  }

  function WriteAttribute(a: Attribute): string {
    [' '] + (a.key + ("=\"" + (EscapeValue(a.value) + "\"")))
  }

  function WriteAttributes(attributes: seq<Attribute>): string {
    if attributes == [] then [] else WriteAttribute(attributes[0]) + WriteAttributes(attributes[1..])
  }

  /** What a captured event adds to the text. */
  function Write(event: Event): string {
    match event
    case Start(tag) => "<" + (tag.name + (WriteAttributes(tag.attributes) + ">"))
    case Empty(tag) => "<" + (tag.name + (WriteAttributes(tag.attributes) + "/>"))
    case End(name) => "</" + (name + ">")
    case Text(text) => EscapeText(text)
    case CData(text) => EscapeText(text)
    case GeneralRef(name) => "&" + (name + ";")
    case Other => []
  }

  function WriteAll(events: seq<Event>): string {
    if events == [] then [] else Write(events[0]) + WriteAll(events[1..])
  }

  // ----- references (sections 4.1 and 4.6 of XML 1.0)

  function HexValue(s: string): Option<nat> {
    if s == [] then Some(0)
    else
      var high :- HexValue(s[..|s| - 1]);
      var low :- HexDigit(s[|s| - 1]);
      Some(16 * high + low)
  }

  function CharNumber(digits: string): Option<nat> {
    if digits == [] then None
    else if digits[0] == 'x' then (if |digits| == 1 then None else HexValue(digits[1..]))
    else if AllDigits(digits) then Some(DecimalValue(digits))
    else None
  }

  /** `entity_to_char`: a character by its number, or one of the five entities XML predefines. */
  function Resolve(name: string): Option<char> {
    if name != [] && name[0] == '#' then
      var n :- CharNumber(name[1..]);
      if 0 < n < 0xD800 || 0xE000 <= n < 0x11_0000 then Some(n as char) else None
    else if name == "amp" then Some('&')
    else if name == "lt" then Some('<')
    else if name == "gt" then Some('>')
    else if name == "quot" then Some('"')
    else if name == "apos" then Some('\'')
    else None
  }

  /** The five predefined entities, and characters by their numbers. */
  lemma ReferencesAsWritten()
    ensures Resolve("amp") == Some('&') && Resolve("lt") == Some('<') && Resolve("gt") == Some('>')
    ensures Resolve("quot") == Some('"') && Resolve("apos") == Some('\'')
    ensures Resolve("#x2F") == Some('/') && Resolve("#x2f") == Some('/') && Resolve("#47") == Some('/')
  {
    assert "#x2F"[1..] == "x2F" && "x2F"[1..] == "2F" && "2F"[..1] == "2" && "2"[..0] == "";
    assert "#x2f"[1..] == "x2f" && "x2f"[1..] == "2f" && "2f"[..1] == "2";
    assert "#47"[1..] == "47" && "47"[..1] == "4" && "4"[..0] == "";
  }

  /** A decimal number stands for the character that has it, if one has. */
  lemma NumberResolves(digits: string)
    requires digits != "" && AllDigits(digits)
    ensures var n := DecimalValue(digits);
      Resolve(['#'] + digits) == if 1 <= n <= 0xD7FF || 0xE000 <= n <= 0x10FFFF then Some(n as char) else None
  {
    assert (['#'] + digits)[1..] == digits && digits[0] in digits;
    hide DecimalValue, AllDigits;
  }

  // ----- attribute values (sections 2.11 and 3.3.3 of XML 1.0)

  predicate IsBlank(c: char) {
    c in {' ', '\t', '\r', '\n'}
  }

  /** Line ends and tabs are spaces in an attribute value; `Spaced` leaves everything else. */
  function Spaced(s: string): string {
    if s == [] then []
    else if "\r\n" <= s then " " + Spaced(s[2..])
    else [if IsBlank(s[0]) then ' ' else s[0]] + Spaced(s[1..])
  }

  /** The value with its references resolved too; None if one of them is no reference. */
  function Normalized(s: string): Option<string> {
    if s == [] then Some([])
    else if s[0] == '&' then
      var name := BeforeFirst(s[1..], ';');
      if ';' !in s[1..] then None
      else
        var c :- Resolve(name);
        var rest :- Normalized(s[|name| + 2..]);
        Some([c] + rest)
    else if "\r\n" <= s then
      var rest :- Normalized(s[2..]);
      Some(" " + rest)
    else
      var rest :- Normalized(s[1..]);
      Some([if IsBlank(s[0]) then ' ' else s[0]] + rest)
  }

  /** The value `attr_value` gives for an attribute (src/exchange_ews/parse.rs:45-57): the value as written when it
      cannot be normalized. */
  function Value(raw: string): string {
    Normalized(raw).GetOr(raw)
  }

  // ----- what a reader of the document gathers

  datatype Item = Open(name: string, attributes: seq<Attribute>) | Close(name: string) | Character(c: char)

  function Values(attributes: seq<Attribute>, value: string -> string): seq<Attribute> {
    seq(|attributes|, i requires 0 <= i < |attributes| => Attribute(attributes[i].key, value(attributes[i].value)))
  }

  function Characters(s: string): seq<Item> {
    seq(|s|, i requires 0 <= i < |s| => Character(s[i]))
  }

  function Resolved(name: string): seq<Item> {
    if Resolve(name).Some? then [Character(Resolve(name).value)] else []
  }

  /** The part of an event that counts: elements, attributes with `value` of what is written, and text character by
      character however it is written. */
  function Items(event: Event, value: string -> string): seq<Item> {
    match event
    case Start(tag) => [Open(tag.name, Values(tag.attributes, value))]
    case Empty(tag) => [Open(tag.name, Values(tag.attributes, value)), Close(tag.name)]
    case End(name) => [Close(name)]
    case Text(text) => Characters(text)
    case CData(text) => Characters(text)
    case GeneralRef(name) => Resolved(name)
    case Other => []
  }

  function AllItems(events: seq<Event>, value: string -> string): seq<Item> {
    if events == [] then [] else Items(events[0], value) + AllItems(events[1..], value)
  }

  // ----- reading text: tags, references and characters (sections 2.4, 3.1 and 4.1 of XML 1.0)

  predicate IsNameChar(c: char) {
    !IsBlank(c) && c !in {'<', '>', '/', '=', '"', '\'', '&', '!', '?', ';'}
  }

  predicate IsName(s: string) {
    s != [] && forall c :: c in s ==> IsNameChar(c)
  }

  /** The characters of a name at the start of `s`. */
  function NameAt(s: string): (name: string)
    ensures name <= s
  {
    if s != [] && IsNameChar(s[0]) then [s[0]] + NameAt(s[1..]) else []
  }

  /** The attribute after a space, and the rest of `s`. */
  function ReadAttribute(s: string): (r: Option<(Attribute, string)>)
    ensures r.Some? ==> |r.value.1| <= |s|
  {
    var key := NameAt(s);
    var afterKey := s[|key|..];
    if key == [] || !("=\"" <= afterKey) || '"' !in afterKey[2..] then None
    else
      var value := BeforeFirst(afterKey[2..], '"');
      Some((Attribute(key, Value(value)), afterKey[2..][|value| + 1..]))
  }

  /** The attributes at the start of `s`, and the rest of `s`. */
  function ReadAttributes(s: string): (r: Option<(seq<Attribute>, string)>)
    ensures r.Some? ==> |r.value.1| <= |s|
  {
    hide ReadAttribute;
    if s == [] || s[0] != ' ' then Some(([], s))
    else
      var first := ReadAttribute(s[1..]);
      if first.None? then None else Listed(first.value.0, ReadAttributes(first.value.1))
  }

  /** One attribute more in front of those already read. */
  function Listed(a: Attribute, rest: Option<(seq<Attribute>, string)>): Option<(seq<Attribute>, string)> {
    if rest.None? then None else Some(([a] + rest.value.0, rest.value.1))
  }

  /** A start tag or an empty-element tag after its `<`, and the rest of `s`. */
  function ReadStartTag(s: string): (r: Option<(seq<Item>, string)>)
    ensures r.Some? ==> |r.value.1| < |s|
  {
    var name := NameAt(s);
    if name == [] then None
    else
      var attributes :- ReadAttributes(s[|name|..]);
      var rest := attributes.1;
      if ">" <= rest then Some(([Open(name, attributes.0)], rest[1..]))
      else if "/>" <= rest then Some(([Open(name, attributes.0), Close(name)], rest[2..]))
      else None
  }

  /** An end tag after its `</`, and the rest of `s`. */
  function ReadEndTag(s: string): (r: Option<(seq<Item>, string)>)
    ensures r.Some? ==> |r.value.1| < |s|
  {
    var name := NameAt(s);
    if name == [] || !(">" <= s[|name|..]) then None else Some(([Close(name)], s[|name| + 1..]))
  }

  /** The next tag, reference or character, and the rest of `s`. */
  function ReadNext(s: string): (r: Option<(seq<Item>, string)>)
    requires s != []
    ensures r.Some? ==> |r.value.1| < |s|
  {
    if "</" <= s then ReadEndTag(s[2..])
    else if s[0] == '<' then ReadStartTag(s[1..])
    else if s[0] == '&' then
      var name := BeforeFirst(s[1..], ';');
      if ';' !in s[1..] then None else Some((Resolved(name), s[|name| + 2..]))
    else Some(([Character(s[0])], s[1..]))
  }

  function ReadAll(s: string): Option<seq<Item>>
    decreases |s|
  {
    hide ReadNext;
    if s == [] then Some([])
    else
      var next := ReadNext(s);
      if next.None? then None else Joined(next.value.0, ReadAll(next.value.1))
  }

  function Joined(items: seq<Item>, rest: Option<seq<Item>>): Option<seq<Item>> {
    if rest.None? then None else Some(items + rest.value)
  }
}
