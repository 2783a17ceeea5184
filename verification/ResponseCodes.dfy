/** The response codes of Exchange Web Services (src/exchange_ews/types.rs:218-273). */
module ResponseCodes {
  import opened Wrappers

  datatype ResponseCode =
    | NoError
    | ItemNotFound
    | AccessDenied
    | InvalidIdMalformed
    | ServerBusy(backOff: Option<nat>)
    | TimeoutExpired
    | InvalidSyncStateData
    | MimeContentConversionFailed
    | AttachmentNotFound
    | AuthenticationRequired
    | ImpersonationFailed
    | BatchProcessingStopped
    | InternalServerTransientError
    | MailboxStoreUnavailable
    | ConnectionFailed
    | AdUnavailable
    | InvalidServerVersion
    | IncorrectSchemaVersion
    | InvalidRequest
    | InvalidSchemaVersionForMailboxVersion
    | Other(name: string)

  /** `ResponseCode::parse`; its twenty texts are in four parts here. */
  function ParseCode(code: string): ResponseCode {
    if ParseEarly(code).Some? then ParseEarly(code).value
    else if ParseMiddle(code).Some? then ParseMiddle(code).value
    else if ParseLate(code).Some? then ParseLate(code).value
    else ParseLast(code).GetOr(Other(code))
  }

  function ParseEarly(code: string): Option<ResponseCode> {
    if code == "NoError" then Some(NoError)
    else if code == "ErrorItemNotFound" then Some(ItemNotFound)
    else if code == "ErrorAccessDenied" then Some(AccessDenied)
    else if code == "ErrorInvalidIdMalformed" then Some(InvalidIdMalformed)
    else if code == "ErrorServerBusy" then Some(ServerBusy(None))
    else if code == "ErrorTimeoutExpired" then Some(TimeoutExpired)
    else if code == "ErrorInvalidSyncStateData" then Some(InvalidSyncStateData)
    else None
  }

  function ParseMiddle(code: string): Option<ResponseCode> {
    if code == "ErrorMimeContentConversionFailed" then Some(MimeContentConversionFailed)
    else if code == "ErrorAttachmentNotFound" then Some(AttachmentNotFound)
    else if code == "ErrorAuthenticationRequired" then Some(AuthenticationRequired)
    else if code == "ErrorImpersonationFailed" then Some(ImpersonationFailed)
    else if code == "ErrorBatchProcessingStopped" then Some(BatchProcessingStopped)
    else None
  }

  function ParseLate(code: string): Option<ResponseCode> {
    if code == "ErrorInternalServerTransientError" then Some(InternalServerTransientError)
    else if code == "ErrorMailboxStoreUnavailable" then Some(MailboxStoreUnavailable)
    else if code == "ErrorConnectionFailed" then Some(ConnectionFailed)
    else if code == "ErrorADUnavailable" then Some(AdUnavailable)
    else None
  }

  function ParseLast(code: string): Option<ResponseCode> {
    if code == "ErrorInvalidServerVersion" then Some(InvalidServerVersion)
    else if code == "ErrorIncorrectSchemaVersion" then Some(IncorrectSchemaVersion)
    else if code == "ErrorInvalidRequest" then Some(InvalidRequest)
    else if code == "ErrorInvalidSchemaVersionForMailboxVersion" then Some(InvalidSchemaVersionForMailboxVersion)
    else None
  }
}
