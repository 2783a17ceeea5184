/** The texts of the response codes of Exchange Web Services (src/exchange_ews/types.rs:242-273). */
module CodeTexts {
  import opened ResponseCodes
  import opened Wrappers

  predicate IsEarly(code: ResponseCode) {
    code.NoError? || code.ItemNotFound? || code.AccessDenied? || code.InvalidIdMalformed? || code.ServerBusy?
    || code.TimeoutExpired? || code.InvalidSyncStateData?
  }

  function EarlyText(code: ResponseCode): string
    requires IsEarly(code)
  {
    match code
    case NoError => "NoError"
    case ItemNotFound => "ErrorItemNotFound"
    case AccessDenied => "ErrorAccessDenied"
    case InvalidIdMalformed => "ErrorInvalidIdMalformed"
    case ServerBusy(_) => "ErrorServerBusy"
    case TimeoutExpired => "ErrorTimeoutExpired"
    case InvalidSyncStateData => "ErrorInvalidSyncStateData"
  }

  predicate IsMiddle(code: ResponseCode) {
    code.MimeContentConversionFailed? || code.AttachmentNotFound? || code.AuthenticationRequired?
    || code.ImpersonationFailed? || code.BatchProcessingStopped?
  }

  function MiddleText(code: ResponseCode): string
    requires IsMiddle(code)
  {
    match code
    case MimeContentConversionFailed => "ErrorMimeContentConversionFailed"
    case AttachmentNotFound => "ErrorAttachmentNotFound"
    case AuthenticationRequired => "ErrorAuthenticationRequired"
    case ImpersonationFailed => "ErrorImpersonationFailed"
    case BatchProcessingStopped => "ErrorBatchProcessingStopped"
  }

  predicate IsLate(code: ResponseCode) {
    code.InternalServerTransientError? || code.MailboxStoreUnavailable? || code.ConnectionFailed?
    || code.AdUnavailable?
  }

  function LateText(code: ResponseCode): string
    requires IsLate(code)
  {
    match code
    case InternalServerTransientError => "ErrorInternalServerTransientError"
    case MailboxStoreUnavailable => "ErrorMailboxStoreUnavailable"
    case ConnectionFailed => "ErrorConnectionFailed"
    case AdUnavailable => "ErrorADUnavailable"
  }

  predicate IsLast(code: ResponseCode) {
    code.InvalidServerVersion? || code.IncorrectSchemaVersion? || code.InvalidRequest?
    || code.InvalidSchemaVersionForMailboxVersion?
  }

  function LastText(code: ResponseCode): string
    requires IsLast(code)
  {
    match code
    case InvalidServerVersion => "ErrorInvalidServerVersion"
    case IncorrectSchemaVersion => "ErrorIncorrectSchemaVersion"
    case InvalidRequest => "ErrorInvalidRequest"
    case InvalidSchemaVersionForMailboxVersion => "ErrorInvalidSchemaVersionForMailboxVersion"
  }

  /** The text that stands for a code. */
  function CodeText(code: ResponseCode): string {
    if IsEarly(code) then EarlyText(code)
    else if IsMiddle(code) then MiddleText(code)
    else if IsLate(code) then LateText(code)
    else if IsLast(code) then LastText(code)
    else code.name
  }

  /** A code that has a text of its own, as it is read. */
  predicate IsKnown(code: ResponseCode) {
    !code.Other? && (code.ServerBusy? ==> code.backOff == None)
  }

  lemma EarlyIs(text: string, code: ResponseCode)
    requires IsKnown(code)
    ensures ParseEarly(text) == Some(code) <==> IsEarly(code) && text == EarlyText(code)
    ensures ParseEarly(text).Some? ==> IsEarly(ParseEarly(text).value) && IsKnown(ParseEarly(text).value)
  {
  }

  lemma MiddleIs(text: string, code: ResponseCode)
    requires IsKnown(code)
    ensures ParseMiddle(text) == Some(code) <==> IsMiddle(code) && text == MiddleText(code)
    ensures ParseMiddle(text).Some? ==> IsMiddle(ParseMiddle(text).value) && IsKnown(ParseMiddle(text).value)
  {
  }

  lemma LateIs(text: string, code: ResponseCode)
    requires IsKnown(code)
    ensures ParseLate(text) == Some(code) <==> IsLate(code) && text == LateText(code)
    ensures ParseLate(text).Some? ==> IsLate(ParseLate(text).value) && IsKnown(ParseLate(text).value)
  {
  }

  lemma LastIs(text: string, code: ResponseCode)
    requires IsKnown(code)
    ensures ParseLast(text) == Some(code) <==> IsLast(code) && text == LastText(code)
    ensures ParseLast(text).Some? ==> IsLast(ParseLast(text).value) && IsKnown(ParseLast(text).value)
  {
  }

  // By its length and two of its letters a text is told from those of the other parts.

  function Print(text: string): (int, char, char)
    requires |text| > 5
  {
    (|text|, text[5], if |text| > 13 then text[13] else ' ')
  }

  const EARLY_PRINTS: set<(int, char, char)> := {
      (7, 'o', ' '), (17, 'I', 'o'), (17, 'A', 'n'), (23, 'I', 'd'), (15, 'S', 's'), (19, 'T', 'x'), (25, 'I', 'y')}

  lemma EarlyPrints(code: ResponseCode)
    requires IsEarly(code)
    ensures |EarlyText(code)| > 5
    ensures Print(EarlyText(code)) in EARLY_PRINTS
  {
  }

  const MIDDLE_PRINTS: set<(int, char, char)> := {
      (32, 'M', 'e'), (23, 'A', 'n'), (27, 'A', 'c'), (24, 'I', 'a'), (27, 'B', 'c')}

  lemma MiddlePrints(code: ResponseCode)
    requires IsMiddle(code)
    ensures |MiddleText(code)| > 5
    ensures Print(MiddleText(code)) in MIDDLE_PRINTS
  {
  }

  const LATE_PRINTS: set<(int, char, char)> := {
      (33, 'I', 'S'), (28, 'M', 't'), (21, 'C', 'o'), (18, 'A', 'l')}

  lemma LatePrints(code: ResponseCode)
    requires IsLate(code)
    ensures |LateText(code)| > 5
    ensures Print(LateText(code)) in LATE_PRINTS
  {
  }

  const LAST_PRINTS: set<(int, char, char)> := {
      (25, 'I', 'e'), (27, 'I', 't'), (19, 'I', 'e'), (42, 'I', 'c')}

  lemma LastPrints(code: ResponseCode)
    requires IsLast(code)
    ensures |LastText(code)| > 5
    ensures Print(LastText(code)) in LAST_PRINTS
  {
  }

  /** A text is read as a known code exactly when it is the text of that code; any other text is kept. */
  lemma CodeIsRead(text: string, code: ResponseCode)
    requires IsKnown(code)
    ensures ParseCode(text) == code <==> text == CodeText(code)
    ensures IsKnown(ParseCode(text)) || ParseCode(text) == Other(text)
  {
    hide EarlyText, MiddleText, LateText, LastText, ParseEarly, ParseMiddle, ParseLate, ParseLast, Print;
    EarlyIs(text, code);
    MiddleIs(text, code);
    LateIs(text, code);
    LastIs(text, code);
    if text == CodeText(code) {
      OnePart(text, code);
    }
  }

  lemma OnePart(text: string, code: ResponseCode)
    requires IsKnown(code) && text == CodeText(code)
    ensures ParseEarly(text).Some? ==> IsEarly(code)
    ensures ParseMiddle(text).Some? ==> IsMiddle(code)
    ensures ParseLate(text).Some? ==> IsLate(code)
    ensures ParseLast(text).Some? ==> IsLast(code)
  {
    hide EarlyText, MiddleText, LateText, LastText, ParseEarly, ParseMiddle, ParseLate, ParseLast, Print;
    Printed(code);
    if ParseEarly(text).Some? {
      var c := ParseEarly(text).value;
      EarlyIs(text, code);
      EarlyIs(text, c);
      EarlyPrints(c);
    }
    if ParseMiddle(text).Some? {
      var c := ParseMiddle(text).value;
      MiddleIs(text, code);
      MiddleIs(text, c);
      MiddlePrints(c);
    }
    if ParseLate(text).Some? {
      var c := ParseLate(text).value;
      LateIs(text, code);
      LateIs(text, c);
      LatePrints(c);
    }
    if ParseLast(text).Some? {
      var c := ParseLast(text).value;
      LastIs(text, code);
      LastIs(text, c);
      LastPrints(c);
    }
  }

  lemma Printed(code: ResponseCode)
    requires IsKnown(code)
    ensures |CodeText(code)| > 5
    ensures IsEarly(code) ==> Print(CodeText(code)) in EARLY_PRINTS
    ensures IsMiddle(code) ==> Print(CodeText(code)) in MIDDLE_PRINTS
    ensures IsLate(code) ==> Print(CodeText(code)) in LATE_PRINTS
    ensures IsLast(code) ==> Print(CodeText(code)) in LAST_PRINTS
  {
    hide EarlyText, MiddleText, LateText, LastText, Print;
    if IsEarly(code) {
      EarlyPrints(code);
    } else if IsMiddle(code) {
      MiddlePrints(code);
    } else if IsLate(code) {
      LatePrints(code);
    } else {
      LastPrints(code);
    }
  }
}
