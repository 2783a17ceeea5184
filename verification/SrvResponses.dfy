/** The answers of an SRV response (src/exchange_ews/autodiscover.rs, `parse_srv_response`). */
module SrvResponses {
  import opened Wrappers
  import opened Utf8
  import opened DnsNames
  import opened CompressedNames

  const HEADER_SIZE := 12
  const SRV_TYPE := 33

  // ----- parsing

  /** The cursor after that many questions. */
  function SkipQuestions(buf: string, cursor: nat, count: nat): Option<nat>
    requires IsBytes(buf)
    decreases count
  {
    if count == 0 then Some(cursor)
    else
      var name :- SkipFrom(buf, cursor);
      if name + 4 > |buf| then None else SkipQuestions(buf, name + 4, count - 1)
  }

  /** The SRV records among that many answers. */
  function ReadAnswers(buf: string, cursor: nat, count: nat): Option<seq<SrvRecord>>
    requires IsBytes(buf)
    decreases count
  {
    if count == 0 then Some([])
    else
      var at :- SkipFrom(buf, cursor);
      if at + 10 > |buf| || at + 10 + U16At(buf, at + 8) > |buf| then None
      else
        var rdlength := U16At(buf, at + 8);
        if U16At(buf, at) == SRV_TYPE && rdlength >= 7 then
          var target :- ReadFrom(buf, at + 16, 0, []);
          var rest :- ReadAnswers(buf, at + 10 + rdlength, count - 1);
          Some([SrvRecord(U16At(buf, at + 10), U16At(buf, at + 12), U16At(buf, at + 14), target)] + rest)
        else ReadAnswers(buf, at + 10 + rdlength, count - 1)
  }

  function Parse(buf: string): Option<seq<SrvRecord>>
    requires IsBytes(buf)
  {
    if |buf| < HEADER_SIZE then None
    else
      var cursor :- SkipQuestions(buf, HEADER_SIZE, U16At(buf, 4));
      ReadAnswers(buf, cursor, U16At(buf, 6))
  }

  function After(out: seq<SrvRecord>, rest: Option<seq<SrvRecord>>): Option<seq<SrvRecord>> {
    match rest
    case Some(s) => Some(out + s)
    case None => None
  }

  lemma AfterStep(out: seq<SrvRecord>, r: SrvRecord, rest: Option<seq<SrvRecord>>)
    ensures After(out + [r], rest) == After(out, After([r], rest))
  {
    if rest.Some? {
      assert out + [r] + rest.value == out + ([r] + rest.value);
    }
  }

  /** `parse_srv_response`: every index it uses is inside the buffer, whatever the buffer holds. */
  method ParseSrvResponse(buf: string) returns (r: Option<seq<SrvRecord>>)
    requires IsBytes(buf)
    ensures r == Parse(buf)
  {
    hide SkipFrom, ReadFrom, IsBytes, U16At;
    if |buf| < HEADER_SIZE {
      return None;
    }
    var qd := U16At(buf, 4);
    var an := U16At(buf, 6);
    var cursor: nat := HEADER_SIZE;
    for i := 0 to qd
      invariant SkipQuestions(buf, cursor, qd - i) == SkipQuestions(buf, HEADER_SIZE, qd)
    {
      var name := SkipName(buf, cursor);
      if name.None? {
        return None;
      }
      cursor := name.value + 4;
      if cursor > |buf| {
        return None;
      }
    }
    ghost var first := cursor;
    var out: seq<SrvRecord> := [];
    AfterNothing(ReadAnswers(buf, first, an));
    for i := 0 to an
      invariant After(out, ReadAnswers(buf, cursor, an - i)) == ReadAnswers(buf, first, an)
    {
      var at := SkipName(buf, cursor);
      if at.None? {
        return None;
      }
      cursor := at.value;
      if cursor + 10 > |buf| {
        return None;
      }
      var rtype := U16At(buf, cursor);
      var rdlength := U16At(buf, cursor + 8);
      cursor := cursor + 10;
      var rdataEnd := cursor + rdlength;
      if rdataEnd > |buf| {
        return None;
      }
      if rtype == SRV_TYPE && rdlength >= 7 {
        var priority := U16At(buf, cursor);
        var weight := U16At(buf, cursor + 2);
        var port := U16At(buf, cursor + 4);
        var target := ReadName(buf, cursor + 6);
        if target.None? {
          return None;
        }
        var record := SrvRecord(priority, weight, port, target.value);
        AfterStep(out, record, ReadAnswers(buf, rdataEnd, an - i - 1));
        out := out + [record];
      }
      cursor := rdataEnd;
    }
    assert out + [] == out;
    return Some(out);
  }

  lemma AfterNothing(rest: Option<seq<SrvRecord>>)
    ensures After([], rest) == rest
  {
    if rest.Some? {
      assert [] + rest.value == rest.value;
    }
  }

  // ----- messages, section 4.1 of RFC 1035

  function U16Bytes(n: nat): string
    requires n < 0x1_0000
  {
    [(n / 256) as char, (n % 256) as char]
  }

  datatype Question = Question(name: string, typeAndClass: string)

  function QuestionBytes(questions: seq<Question>): string {
    if questions == [] then []
    else questions[0].name + (questions[0].typeAndClass + QuestionBytes(questions[1..]))
  }

  /** An answer: an SRV record (RFC 2782) or anything else, a record of that type too short to be one included. */
  datatype Answer =
    | Srv(owner: string, priority: nat, weight: nat, port: nat, target: Name, classAndTtl: string)
    | Other(owner: string, rtype: nat, rdata: string, classAndTtl: string)
  {
    predicate Valid() {
      match this
      case Srv(_, p, w, port, target, c) =>
        && p < 0x1_0000 && w < 0x1_0000 && port < 0x1_0000 && |c| == 6
        && target.Valid() && 6 + |target.Bytes()| < 0x1_0000
      case Other(_, t, rdata, c) =>
        t < 0x1_0000 && (t == SRV_TYPE ==> |rdata| < 7) && |rdata| < 0x1_0000 && |c| == 6
    }

    function Type(): nat {
      if Srv? then 33 else rtype
    }

    function Data(): string
      requires Valid()
    {
      match this
      case Srv(_, p, w, port, target, _) => U16Bytes(p) + (U16Bytes(w) + (U16Bytes(port) + target.Bytes()))
      case Other(_, _, rdata, _) => rdata
    }

    function Bytes(): string
      requires Valid()
    {
      owner + (U16Bytes(Type()) + (classAndTtl + (U16Bytes(|Data()|) + Data())))
    }
  }

  predicate AllValid(answers: seq<Answer>) {
    forall i :: 0 <= i < |answers| ==> answers[i].Valid()
  }

  /** The records are within bounds, their owners are names, and the message holds what the pointers of their targets
      lead to. */
  ghost predicate AreAnswers(buf: string, answers: seq<Answer>) {
    AllValid(answers)
    && forall i :: 0 <= i < |answers| ==>
      && IsPassed(answers[i].owner)
      && (answers[i].Srv? ==> answers[i].target.IsLinkedIn(buf))
  }

  /** The target of an SRV record takes no more pointers than the reader follows. */
  predicate IsReadable(a: Answer) {
    a.Srv? ==> a.target.Links() <= 8
  }

  predicate AreReadable(answers: seq<Answer>) {
    forall i :: 0 <= i < |answers| ==> IsReadable(answers[i])
  }

  function AnswerBytes(answers: seq<Answer>): string
    requires AllValid(answers)
  {
    if answers == [] then [] else answers[0].Bytes() + AnswerBytes(answers[1..])
  }

  function SrvRecords(answers: seq<Answer>): seq<SrvRecord> {
    if answers == [] then []
    else
      match answers[0]
      case Srv(_, p, w, port, target, _) =>
        [SrvRecord(p, w, port, Join([], target.Labels()))] + SrvRecords(answers[1..])
      case Other(_, _, _, _) => SrvRecords(answers[1..])
  }

  lemma U16BytesAt(buf: string, cursor: nat, n: nat)
    requires n < 0x1_0000 && HasAt(buf, cursor, U16Bytes(n))
    ensures cursor + 2 <= |buf| && U16At(buf, cursor) == n
  {
    var s := buf[cursor..cursor + 2];
    assert buf[cursor] == s[0] && buf[cursor + 1] == s[1];
  }

  lemma FieldsAt(buf: string, at: nat, rtype: nat, classAndTtl: string, data: string)
    requires rtype < 0x1_0000 && |classAndTtl| == 6 && |data| < 0x1_0000
    requires HasAt(buf, at, U16Bytes(rtype) + (classAndTtl + (U16Bytes(|data|) + data)))
    ensures at + 10 + |data| <= |buf| && U16At(buf, at) == rtype && U16At(buf, at + 8) == |data|
    ensures HasAt(buf, at + 10, data)
  {
    hide HasAt, U16At;
    HasParts(buf, at, U16Bytes(rtype), classAndTtl + (U16Bytes(|data|) + data));
    U16BytesAt(buf, at, rtype);
    HasParts(buf, at + 2, classAndTtl, U16Bytes(|data|) + data);
    HasParts(buf, at + 8, U16Bytes(|data|), data);
    U16BytesAt(buf, at + 8, |data|);
    HasLength(buf, at + 10, data);
  }

  lemma AnswerParts(a: Answer)
    requires a.Valid()
    ensures a.Type() < 0x1_0000 && |a.classAndTtl| == 6 && |a.Data()| < 0x1_0000
    ensures |a.Bytes()| == |a.owner| + 10 + |a.Data()|
  {
    hide NameBytes;
  }

  /** The fields of an answer are where the parser looks for them. */
  lemma AnswerFields(buf: string, cursor: nat, a: Answer)
    requires IsBytes(buf) && a.Valid() && IsPassed(a.owner) && HasAt(buf, cursor, a.Bytes())
    ensures
      var at := cursor + |a.owner|;
      && SkipFrom(buf, cursor) == Some(at)
      && at + 10 + |a.Data()| <= |buf| && |a.Bytes()| == |a.owner| + 10 + |a.Data()|
      && U16At(buf, at) == a.Type() && U16At(buf, at + 8) == |a.Data()|
      && HasAt(buf, at + 10, a.Data())
  {
    hide HasAt, SkipFrom, ReadFrom, IsBytes, NameBytes, IsPassed, U16At, U16Bytes;
    AnswerParts(a);
    HasParts(buf, cursor, a.owner, U16Bytes(a.Type()) + (a.classAndTtl + (U16Bytes(|a.Data()|) + a.Data())));
    PassedAt(a.owner, buf, cursor);
    FieldsAt(buf, cursor + |a.owner|, a.Type(), a.classAndTtl, a.Data());
  }

  lemma HasLength(buf: string, cursor: nat, bytes: string)
    requires HasAt(buf, cursor, bytes)
    ensures cursor + |bytes| <= |buf|
  {
  }

  lemma SrvFields(buf: string, cursor: nat, a: Answer)
    requires IsBytes(buf) && a.Valid() && a.Srv? && a.target.IsLinkedIn(buf) && HasAt(buf, cursor, a.Data())
    ensures |a.Data()| >= 7 && cursor + |a.Data()| <= |buf|
    ensures U16At(buf, cursor) == a.priority && U16At(buf, cursor + 2) == a.weight && U16At(buf, cursor + 4) == a.port
    ensures ReadFrom(buf, cursor + 6, 0, []) == if IsReadable(a) then Some(Join([], a.target.Labels())) else None
  {
    NameNotEmpty(a.target);
    hide HasAt, ReadFrom, IsBytes, NameBytes, LabelsBytes, PointerBytes, Join;
    var name := a.target.Bytes();
    HasLength(buf, cursor, a.Data());
    HasParts(buf, cursor, U16Bytes(a.priority), U16Bytes(a.weight) + (U16Bytes(a.port) + name));
    U16BytesAt(buf, cursor, a.priority);
    HasParts(buf, cursor + 2, U16Bytes(a.weight), U16Bytes(a.port) + name);
    U16BytesAt(buf, cursor + 2, a.weight);
    HasParts(buf, cursor + 4, U16Bytes(a.port), name);
    U16BytesAt(buf, cursor + 4, a.port);
    NameReads(buf, cursor + 6, 0, [], a.target);
  }

  lemma NameNotEmpty(n: Name)
    requires n.Valid()
    ensures |n.Bytes()| >= 1
  {
  }

  lemma {:induction false} AnswersRead(buf: string, cursor: nat, answers: seq<Answer>)
    requires IsBytes(buf) && AreAnswers(buf, answers) && HasAt(buf, cursor, AnswerBytes(answers))
    ensures ReadAnswers(buf, cursor, |answers|) == if AreReadable(answers) then Some(SrvRecords(answers)) else None
    decreases |answers|
  {
    hide HasAt, ReadFrom, SkipFrom, IsBytes, NameBytes, U16At, Join, IsPassed, U16Bytes, ReadAnswers, SrvRecords,
      IsReadable, AreReadable, AreAnswers, AllValid, AnswerBytes;
    if answers == [] {
      NoAnswers(buf, cursor);
    } else {
      var a := answers[0];
      AnswersParts(buf, answers);
      ReadableParts(answers);
      HasParts(buf, cursor, a.Bytes(), AnswerBytes(answers[1..]));
      AnswerFields(buf, cursor, a);
      AnswersRead(buf, cursor + |a.Bytes()|, answers[1..]);
      var at := cursor + |a.owner|;
      if a.Srv? {
        SrvFields(buf, at + 10, a);
        SrvStep(buf, cursor, at, answers, |a.Data()|);
      } else {
        OtherStep(buf, cursor, at, answers);
      }
    }
  }

  lemma AnswersParts(buf: string, answers: seq<Answer>)
    requires answers != [] && AreAnswers(buf, answers)
    ensures answers[0].Valid() && IsPassed(answers[0].owner)
    ensures answers[0].Srv? ==> answers[0].target.IsLinkedIn(buf)
    ensures AreAnswers(buf, answers[1..]) && AllValid(answers[1..])
    ensures AnswerBytes(answers) == answers[0].Bytes() + AnswerBytes(answers[1..])
  {
    hide IsPassed, HasAt, U16Bytes, NameBytes, LabelsBytes, PointerBytes;
  }

  lemma NoAnswers(buf: string, cursor: nat)
    requires IsBytes(buf)
    ensures ReadAnswers(buf, cursor, 0) == Some(SrvRecords([])) && AreReadable([])
  {
  }

  lemma ReadableParts(answers: seq<Answer>)
    requires answers != []
    ensures AreReadable(answers) <==> IsReadable(answers[0]) && AreReadable(answers[1..])
    ensures answers[0].Other? ==> IsReadable(answers[0])
  {
    hide IsReadable;
    if IsReadable(answers[0]) && AreReadable(answers[1..]) {
      forall i | 0 <= i < |answers|
        ensures IsReadable(answers[i])
      {
        assert i > 0 ==> answers[i] == answers[1..][i - 1];
      }
    }
    OtherIsReadable(answers[0]);
  }

  lemma OtherIsReadable(a: Answer)
    ensures a.Other? ==> IsReadable(a)
  {
  }

  lemma OtherStep(buf: string, cursor: nat, at: nat, answers: seq<Answer>)
    requires IsBytes(buf) && answers != [] && answers[0].Other? && answers[0].Valid()
    requires SkipFrom(buf, cursor) == Some(at) && at + 10 + |answers[0].rdata| <= |buf|
    requires U16At(buf, at) == answers[0].rtype && U16At(buf, at + 8) == |answers[0].rdata|
    ensures ReadAnswers(buf, cursor, |answers|) == ReadAnswers(buf, at + 10 + |answers[0].rdata|, |answers| - 1)
    ensures SrvRecords(answers) == SrvRecords(answers[1..])
  {
    hide ReadFrom, SkipFrom, IsBytes, U16At;
  }

  lemma SrvStep(buf: string, cursor: nat, at: nat, answers: seq<Answer>, len: nat)
    requires IsBytes(buf) && answers != [] && answers[0].Srv?
    requires SkipFrom(buf, cursor) == Some(at) && at + 10 + len <= |buf| && len >= 7
    requires U16At(buf, at) == SRV_TYPE && U16At(buf, at + 8) == len
    requires var a := answers[0];
      && U16At(buf, at + 10) == a.priority && U16At(buf, at + 12) == a.weight && U16At(buf, at + 14) == a.port
      && ReadFrom(buf, at + 16, 0, []) == if IsReadable(a) then Some(Join([], a.target.Labels())) else None
    requires ReadAnswers(buf, at + 10 + len, |answers| - 1) ==
      if AreReadable(answers[1..]) then Some(SrvRecords(answers[1..])) else None
    ensures ReadAnswers(buf, cursor, |answers|) ==
      if IsReadable(answers[0]) && AreReadable(answers[1..]) then Some(SrvRecords(answers)) else None
  {
    hide ReadFrom, SkipFrom, IsBytes, U16At, Join, IsReadable, AreReadable;
  }

  ghost predicate AreQuestions(questions: seq<Question>) {
    forall i :: 0 <= i < |questions| ==> IsPassed(questions[i].name) && |questions[i].typeAndClass| == 4
  }

  lemma {:induction false} QuestionsSkipped(buf: string, cursor: nat, questions: seq<Question>)
    requires IsBytes(buf) && AreQuestions(questions) && HasAt(buf, cursor, QuestionBytes(questions))
    ensures SkipQuestions(buf, cursor, |questions|) == Some(cursor + |QuestionBytes(questions)|)
    decreases |questions|
  {
    hide HasAt, SkipFrom, IsBytes, IsPassed;
    if questions != [] {
      var q, rest := questions[0], QuestionBytes(questions[1..]);
      HasParts(buf, cursor, q.name, q.typeAndClass + rest);
      PassedAt(q.name, buf, cursor);
      HasParts(buf, cursor + |q.name|, q.typeAndClass, rest);
      HasLength(buf, cursor + |q.name|, q.typeAndClass);
      QuestionsSkipped(buf, cursor + |q.name| + 4, questions[1..]);
    }
  }

  /** A response parses to exactly its SRV records, in order, whatever names own them, unless the target of one takes
      more than eight pointers; the questions are skipped, records of other types are passed over, and so is whatever
      follows the answers. */
  lemma ResponseReads(buf: string, questions: seq<Question>, answers: seq<Answer>)
    requires IsBytes(buf) && |buf| >= 12 && AreQuestions(questions) && AreAnswers(buf, answers)
    requires U16At(buf, 4) == |questions| && U16At(buf, 6) == |answers|
    requires HasAt(buf, 12, QuestionBytes(questions) + AnswerBytes(answers))
    ensures Parse(buf) == if AreReadable(answers) then Some(SrvRecords(answers)) else None
  {
    hide HasAt, ReadFrom, SkipFrom, IsBytes, U16At, SrvRecords, AnswerBytes, ReadAnswers, SkipQuestions, QuestionBytes,
      AreQuestions;
    var asked := QuestionBytes(questions);
    HasParts(buf, HEADER_SIZE, asked, AnswerBytes(answers));
    QuestionsSkipped(buf, HEADER_SIZE, questions);
    AnswersRead(buf, HEADER_SIZE + |asked|, answers);
  }
}
