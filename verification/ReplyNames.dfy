/** The names in an Exchange reply that mean something to the reader (src/exchange_ews/parse.rs:591-729), spelt out. */
module ReplyNames {
  import opened ResponseCodes
  import opened Text
  import opened Wrappers
  import opened XmlCapture
  import opened XmlMessages
  import opened XmlText

  // ----- names

  /** The name is the local name, in letters of any case, perhaps with a prefix in front of it. */
  ghost predicate Spells(name: string, local: string) {
    || Lower(name) == Lower(local)
    || exists prefix, rest :: name == prefix + [':'] + rest && ':' !in prefix && Lower(rest) == Lower(local)
  }

  lemma PrefixIsCut(prefix: string, rest: string)
    requires ':' !in prefix
    ensures Local(prefix + [':'] + rest) == rest
  {
    BeforeFirstAt(prefix, ':', rest);
    assert (prefix + [':'] + rest)[|prefix|] == ':';
  }

  lemma ColonsStay(a: string, b: string)
    requires Lower(a) == Lower(b)
    ensures ':' in a <==> ':' in b
  {
    forall i | 0 <= i < |a|
      ensures a[i] == ':' <==> b[i] == ':'
    {
      assert Lower(a)[i] == Lower(b)[i];
    }
  }

  lemma WithoutColon(name: string)
    requires ':' !in name
    ensures Local(name) == name
  {
  }

  lemma AtColon(name: string)
    requires ':' in name
    ensures
      var prefix := BeforeFirst(name, ':');
      ':' !in prefix && |prefix| < |name| && name == prefix + [':'] + name[|prefix| + 1..]
      && Local(name) == name[|prefix| + 1..]
  {
  }

  lemma SpellingIs(name: string, local: string)
    requires ':' !in local
    ensures SameLetters(Local(name), local) <==> Spells(name, local)
  {
    hide Local, Lower, BeforeFirst;
    if Lower(name) == Lower(local) {
      ColonsStay(name, local);
    }
    if prefix, rest :| name == prefix + [':'] + rest && ':' !in prefix && Lower(rest) == Lower(local) {
      PrefixIsCut(prefix, rest);
    }
    if ':' in name {
      AtColon(name);
      var prefix := BeforeFirst(name, ':');
      assert SameLetters(Local(name), local) ==> Spells(prefix + [':'] + name[|prefix| + 1..], local);
    } else {
      WithoutColon(name);
    }
  }

  /** An element in the namespace of messages is one of the name exactly when its name spells it. */
  lemma MessagesByName(tag: Tag, local: string)
    requires ':' !in local
    ensures IsMessages(tag, local) <==> tag.namespace == Messages && Spells(tag.name, local)
  {
    SpellingIs(tag.name, local);
    hide Local, Lower, Spells;
  }

  /** The two fields and the three captured elements by their names; no name is two of them. */
  lemma ReadByName(tag: Tag)
    ensures FieldOf(tag) == Some(CodeField) <==> tag.namespace == Messages && Spells(tag.name, "ResponseCode")
    ensures FieldOf(tag) == Some(TextField) <==> tag.namespace == Messages && Spells(tag.name, "MessageText")
    ensures
      Captures(tag)
      <==>
      && tag.namespace == Messages
      && (Spells(tag.name, "Items") || Spells(tag.name, "Attachments") || Spells(tag.name, "Folders"))
  {
    MessagesByName(tag, "ResponseCode");
    MessagesByName(tag, "MessageText");
    MessagesByName(tag, "Items");
    MessagesByName(tag, "Attachments");
    MessagesByName(tag, "Folders");
    LengthsDiffer(Local(tag.name));
    hide Local, Lower, Spells;
  }

  lemma LengthsDiffer(name: string)
    ensures SameLetters(name, "ResponseCode") ==> |name| == 12
    ensures SameLetters(name, "MessageText") || SameLetters(name, "Attachments") ==> |name| == 11
    ensures SameLetters(name, "Items") ==> |name| == 5
    ensures SameLetters(name, "Folders") ==> |name| == 7
    ensures !(SameLetters(name, "MessageText") && SameLetters(name, "Attachments"))
  {
    assert Lower("MessageText")[0] == 'm' && Lower("Attachments")[0] == 'a';
  }

  // ----- the class of a message

  /** The attribute at index `i` is the first of that name. */
  ghost predicate IsFirst(attributes: seq<Attribute>, i: nat, name: string)
    requires i < |attributes|
  {
    Spells(attributes[i].key, name) && forall j :: 0 <= j < i ==> !Spells(attributes[j].key, name)
  }

  lemma {:induction false} AttributeByName(attributes: seq<Attribute>, i: nat, name: string)
    requires ':' !in name && i < |attributes| && IsFirst(attributes, i, name)
    ensures AttributeOf(attributes, name) == Some(Value(attributes[i].value))
    decreases i
  {
    hide Value, Spells, SameLetters, Local;
    SpellingIs(attributes[0].key, name);
    if i > 0 {
      assert !Spells(attributes[0].key, name);
      assert forall j :: 0 <= j < i - 1 ==> attributes[1..][j] == attributes[j + 1];
      AttributeByName(attributes[1..], i - 1, name);
    }
  }

  lemma {:induction false} NoAttributeByName(attributes: seq<Attribute>, name: string)
    requires ':' !in name && forall j :: 0 <= j < |attributes| ==> !Spells(attributes[j].key, name)
    ensures AttributeOf(attributes, name) == None
  {
    hide Value, Spells, SameLetters, Local;
    if attributes != [] {
      SpellingIs(attributes[0].key, name);
      assert !Spells(attributes[0].key, name);
      assert forall j :: 0 <= j < |attributes| - 1 ==> attributes[1..][j] == attributes[j + 1];
      NoAttributeByName(attributes[1..], name);
    }
  }

  /** A message is a success when it says so, when it has a warning, and when it says nothing. */
  ghost predicate SaysSuccess(tag: Tag) {
    forall i :: 0 <= i < |tag.attributes| && IsFirst(tag.attributes, i, "ResponseClass") ==>
      Value(tag.attributes[i].value) == "Success" || Value(tag.attributes[i].value) == "Warning"
  }

  lemma SuccessByName(tag: Tag, g: Gathered)
    ensures MessageOf(ClassOf(tag), g).success <==> SaysSuccess(tag)
  {
    hide Value, Spells, WrapInner, AttributeOf;
    if i :| 0 <= i < |tag.attributes| && IsFirst(tag.attributes, i, "ResponseClass") {
      AttributeByName(tag.attributes, i, "ResponseClass");
      forall j | 0 <= j < |tag.attributes|
        ensures IsFirst(tag.attributes, j, "ResponseClass") ==> i == j
      {
        FirstIsOne(tag.attributes, i, j, "ResponseClass");
      }
    } else {
      NoneIsFirst(tag.attributes, "ResponseClass", |tag.attributes|);
      NoAttributeByName(tag.attributes, "ResponseClass");
    }
  }

  lemma FirstIsOne(attributes: seq<Attribute>, i: nat, j: nat, name: string)
    requires i < |attributes| && j < |attributes|
    ensures IsFirst(attributes, i, name) && IsFirst(attributes, j, name) ==> i == j
  {
    hide Spells;
  }

  lemma {:induction false} NoneIsFirst(attributes: seq<Attribute>, name: string, n: nat)
    requires n <= |attributes| && forall i :: 0 <= i < |attributes| ==> !IsFirst(attributes, i, name)
    ensures forall j :: 0 <= j < n ==> !Spells(attributes[j].key, name)
  {
    hide Spells;
    if n > 0 {
      NoneIsFirst(attributes, name, n - 1);
      assert !IsFirst(attributes, n - 1, name);
    }
  }

  // ----- a whole message

  function Field(tag: Tag, text: string, rest: Content): Content {
    Element(tag, Piece(Text(text), Nothing), rest)
  }

  /** An ordinary message, with whatever prefixes: its class, its code, its text and its items are read. */
  lemma ReplyAsWritten(
      tag: Tag, codeTag: Tag, code: string, textTag: Tag, text: string, itemsTag: Tag, items: Content, local: string,
      tail: seq<Event>)
    requires ':' !in local && tag.namespace == Messages && Spells(tag.name, local)
    requires codeTag.namespace == Messages && Spells(codeTag.name, "ResponseCode")
    requires textTag.namespace == Messages && Spells(textTag.name, "MessageText")
    requires itemsTag.namespace == Messages && WellFormed(items)
    requires
      Spells(itemsTag.name, "Items") || Spells(itemsTag.name, "Attachments") || Spells(itemsTag.name, "Folders")
    ensures
      var reply := Element(tag, Field(codeTag, code, Field(textTag, text, Element(itemsTag, items, Nothing))), Nothing);
      AllMessages(Events(reply) + tail, local)
      == [Message(SaysSuccess(tag), ParseCode(Trim(code)), text, WrapInner(WriteAll(Events(items))))]
         + AllMessages(tail, local)
  {
    var content := Field(codeTag, code, Field(textTag, text, Element(itemsTag, items, Nothing)));
    MessagesByName(tag, local);
    ReadByName(codeTag);
    ReadByName(textTag);
    ReadByName(itemsTag);
    hide *;
    FieldsAsWritten(codeTag, code, textTag, text, itemsTag, items);
    FieldsAreWellFormed(codeTag, code, textTag, text, itemsTag, items);
    OneMessage(tag, content, local, tail);
    MessageMade(tag, After(content, INITIAL.gathered));
  }

  lemma FieldsAreWellFormed(codeTag: Tag, code: string, textTag: Tag, text: string, itemsTag: Tag, items: Content)
    requires WellFormed(items)
    ensures WellFormed(Field(codeTag, code, Field(textTag, text, Element(itemsTag, items, Nothing))))
  {
  }

  lemma OneMessage(tag: Tag, content: Content, local: string, tail: seq<Event>)
    requires WellFormed(content) && IsMessages(tag, local)
    ensures
      AllMessages(Events(Element(tag, content, Nothing)) + tail, local)
      == [MessageOf(ClassOf(tag), After(content, INITIAL.gathered))] + AllMessages(tail, local)
  {
    hide AllMessages, IsMessages, MessageOf, ClassOf, After, Events;
    AllMessagesAreFound(Element(tag, content, Nothing), tail, local);
    assert MessagesIn(Nothing, local) == [];
  }

  lemma MessageMade(tag: Tag, g: Gathered)
    ensures MessageOf(ClassOf(tag), g) == Message(SaysSuccess(tag), g.code, g.text, WrapInner(g.inner))
  {
    SuccessByName(tag, g);
    hide SaysSuccess, ClassOf, WrapInner;
  }

  lemma FieldsAsWritten(codeTag: Tag, code: string, textTag: Tag, text: string, itemsTag: Tag, items: Content)
    requires FieldOf(codeTag) == Some(CodeField) && FieldOf(textTag) == Some(TextField) && Captures(itemsTag)
    ensures
      After(Field(codeTag, code, Field(textTag, text, Element(itemsTag, items, Nothing))), INITIAL.gathered)
      == Gathered(ParseCode(Trim(code)), text, WriteAll(Events(items)), None)
  {
    hide WriteAll, Events, ParseCode, Trim, FieldOf, StartsCapture;
    var g1 := INITIAL.gathered.(code := ParseCode(Trim(code)));
    var g2 := g1.(text := text);
    var last := Element(itemsTag, items, Nothing);
    assert After(last, g2) == CopyAll(g2, Events(items)).(current := None);
    assert "" + WriteAll(Events(items)) == WriteAll(Events(items));
    OneField(codeTag, code, Field(textTag, text, last), INITIAL.gathered);
    OneField(textTag, text, last, g1);
  }

  lemma OneField(tag: Tag, text: string, rest: Content, g: Gathered)
    requires FieldOf(tag).Some?
    ensures
      After(Field(tag, text, rest), g) == After(rest, Hear(g.(current := FieldOf(tag)), text).(current := None))
  {
    hide FieldOf, StartsCapture, Hear;
    FieldIsLastPiece(Piece(Text(text), Nothing), g.(current := FieldOf(tag)));
    assert LastText(Piece(Text(text), Nothing)) == Some(text);
  }
}
