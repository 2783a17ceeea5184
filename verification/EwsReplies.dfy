/** What a call does after each reply (src/exchange_ews/retry.rs:12-45 and src/exchange_ews/client.rs:193-406), by the
    texts of the codes and the numbers of the statuses. */
module EwsReplies {
  import opened CodeTexts
  import opened EwsClient
  import opened ResponseCodes
  import opened Wrappers

  // ----- codes

  const TRANSIENT: seq<string> := ["ErrorServerBusy", "ErrorTimeoutExpired", "ErrorInternalServerTransientError",
    "ErrorMailboxStoreUnavailable", "ErrorConnectionFailed", "ErrorADUnavailable", "ErrorBatchProcessingStopped"]

  const VERSION: seq<string> := ["ErrorInvalidServerVersion", "ErrorIncorrectSchemaVersion", "ErrorInvalidRequest",
    "ErrorInvalidSchemaVersionForMailboxVersion"]

  const AUTHENTICATION := "ErrorAuthenticationRequired"

  /** The code of a fault with that text; the fault of a busy server may say how long to wait. */
  predicate IsCodeOf(code: ResponseCode, text: string) {
    code == ParseCode(text) || (code.ServerBusy? && ParseCode(text).ServerBusy?)
  }

  lemma TransientTexts()
    ensures CodeText(ServerBusy(None)) == TRANSIENT[0] && CodeText(TimeoutExpired) == TRANSIENT[1]
    ensures CodeText(InternalServerTransientError) == TRANSIENT[2] && CodeText(MailboxStoreUnavailable) == TRANSIENT[3]
    ensures CodeText(ConnectionFailed) == TRANSIENT[4] && CodeText(AdUnavailable) == TRANSIENT[5]
    ensures CodeText(BatchProcessingStopped) == TRANSIENT[6]
  {
  }

  lemma VersionTexts()
    ensures CodeText(InvalidServerVersion) == VERSION[0] && CodeText(IncorrectSchemaVersion) == VERSION[1]
    ensures CodeText(InvalidRequest) == VERSION[2] && CodeText(InvalidSchemaVersionForMailboxVersion) == VERSION[3]
    ensures CodeText(AuthenticationRequired) == AUTHENTICATION
  {
  }

  lemma TransientByText(text: string)
    ensures ClassifyFault(ParseCode(text)) == RetryableFault <==> text in TRANSIENT
  {
    hide CodeText, ParseCode;
    TransientTexts();
    BusyIsPlain(text);
    CodeIsRead(text, ServerBusy(None));
    CodeIsRead(text, TimeoutExpired);
    CodeIsRead(text, InternalServerTransientError);
    CodeIsRead(text, MailboxStoreUnavailable);
    CodeIsRead(text, ConnectionFailed);
    CodeIsRead(text, AdUnavailable);
    CodeIsRead(text, BatchProcessingStopped);
  }

  lemma BusyIsPlain(text: string)
    ensures ParseCode(text).ServerBusy? ==> ParseCode(text) == ServerBusy(None)
  {
    CodeIsRead(text, NoError);
    hide ParseCode, CodeText;
  }

  lemma VersionByText(text: string)
    ensures ClassifyFault(ParseCode(text)) == VersionError <==> text in VERSION
    ensures ClassifyFault(ParseCode(text)) == AuthFault <==> text == AUTHENTICATION
  {
    hide CodeText, ParseCode;
    VersionTexts();
    CodeIsRead(text, InvalidServerVersion);
    CodeIsRead(text, IncorrectSchemaVersion);
    CodeIsRead(text, InvalidRequest);
    CodeIsRead(text, InvalidSchemaVersionForMailboxVersion);
    CodeIsRead(text, AuthenticationRequired);
  }

  // ----- what a call does next

  /** The call ends with this result. */
  predicate EndsWith(run: Run, v: ServerVersion, result: Result) {
    run == Run([v], result, VersionAfter(result, v), 0)
  }

  /** The same version is sent again and a retry counted, while one is left. */
  ghost predicate Repeats(run: Run, server: Server, i: nat, v: ServerVersion, left: nat, giveUp: Error) {
    if left == 0 then run == Run([v], Failure(giveUp), v, 1)
    else
      var rest := RunFrom(server, i + 1, v, left - 1);
      run == Run([v] + rest.sent, rest.result, rest.version, 1 + rest.retries)
  }

  /** The versions from the oldest to the newest. */
  const LADDER: seq<ServerVersion> := [Exchange2007, Exchange2010, Exchange2010Sp1, Exchange2010Sp2, Exchange2013,
    Exchange2013Sp1, Exchange2016, Exchange2019]

  /** The next older version is sent, without a retry; from the oldest there is none. */
  ghost predicate StepsDown(run: Run, server: Server, i: nat, v: ServerVersion, left: nat, code: ResponseCode) {
    forall k: nat :: k < |LADDER| && LADDER[k] == v ==>
      if k == 0 then run == Run([v], Failure(EveryVersionRejected(code)), v, 0)
      else
        var rest := RunFrom(server, i + 1, LADDER[k - 1], left);
        run == Run([v] + rest.sent, rest.result, rest.version, rest.retries)
  }

  lemma LadderIs(v: ServerVersion, k: nat)
    requires k < |LADDER| && LADDER[k] == v
    ensures Lower(v) == if k == 0 then None else Some(LADDER[k - 1])
  {
  }

  /** A fault, in a reply of any status but 401 and 403, by the text of its code. */
  lemma FaultByText(server: Server, i: nat, v: ServerVersion, left: nat, status: nat, code: ResponseCode, text: string)
    requires server(i, v) == Answer(status, Fault(code)) && status != 401 && status != 403 && IsCodeOf(code, text)
    ensures
      var run := RunFrom(server, i, v, left);
      if text in TRANSIENT then Repeats(run, server, i, v, left, RetriesExhausted)
      else if text in VERSION then StepsDown(run, server, i, v, left, code)
      else if text == AUTHENTICATION then EndsWith(run, v, Failure(Auth))
      else EndsWith(run, v, Failure(SoapFault(code)))
  {
    TransientByText(text);
    VersionByText(text);
    hide ParseCode, Lower;
    assert ClassifyFault(code) == ClassifyFault(ParseCode(text));
    hide ClassifyFault;
    assert Judge(server(i, v), v) == JudgeFault(code, v);
    forall k: nat | k < |LADDER| && LADDER[k] == v
      ensures Lower(v) == if k == 0 then None else Some(LADDER[k - 1])
    {
      LadderIs(v, k);
    }
  }

  /** The version that the build numbers of a body mean. */
  function VersionOfBuild(major: nat, minor: nat): ServerVersion {
    match (major, minor)
    case (8, _) => Exchange2007
    case (14, 0) => Exchange2010
    case (14, 1) => Exchange2010Sp1
    case (14, 2) => Exchange2010Sp2
    case (14, 3) => Exchange2010Sp2
    case (15, 0) => Exchange2013
    case (15, 1) => Exchange2016
    case (x, _) => if x >= 15 then Exchange2019 else Exchange2016
  }

  /** Without a fault, or with status 401 or 403, the status decides: a body is returned with the version that it
      reports, some statuses are tried again, and the others end the call. */
  lemma ReplyByStatus(server: Server, i: nat, v: ServerVersion, left: nat, status: nat, summary: Summary)
    requires server(i, v) == Answer(status, summary) && (summary.Fault? ==> status == 401 || status == 403)
    ensures
      var run := RunFrom(server, i, v, left);
      if status == 401 || status == 456 then EndsWith(run, v, Failure(Auth))
      else if status == 429 || status == 502 || status == 503 || status == 504 then
        Repeats(run, server, i, v, left, RetriesExhausted)
      else if status < 200 || status >= 300 then EndsWith(run, v, Failure(HttpStatus(status)))
      else
        match summary
        case Body(Some(major), Some(minor)) =>
          run == Run([v], Response(Some(VersionOfBuild(major, minor))), VersionOfBuild(major, minor), 0)
        case Body(_, _) => run == Run([v], Response(None), v, 0)
        case Unreadable => EndsWith(run, v, Failure(Malformed))
  {
  }

  /** A failure of the transport is tried again. */
  lemma TransportRepeats(server: Server, i: nat, v: ServerVersion, left: nat)
    requires server(i, v) == TransportFailure
    ensures Repeats(RunFrom(server, i, v, left), server, i, v, left, Transport)
  {
  }
}
