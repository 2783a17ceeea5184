/** One call of the Exchange Web Services client (src/exchange_ews/client.rs:193-406): an envelope is sent again while
    the server asks for patience, and with a lower schema version while it refuses the version. The server is an
    arbitrary function of the number of the envelope and of the schema version in it. */
module EwsClient {
  import opened ResponseCodes
  import opened Wrappers

  // ----- the ladder of schema versions (src/exchange_ews/types.rs:97-149)

  datatype ServerVersion =
    | Exchange2007
    | Exchange2010
    | Exchange2010Sp1
    | Exchange2010Sp2
    | Exchange2013
    | Exchange2013Sp1
    | Exchange2016
    | Exchange2019

  /** The place of a version in the order of release. */
  function Rank(v: ServerVersion): nat {
    match v
    case Exchange2007 => 0
    case Exchange2010 => 1
    case Exchange2010Sp1 => 2
    case Exchange2010Sp2 => 3
    case Exchange2013 => 4
    case Exchange2013Sp1 => 5
    case Exchange2016 => 6
    case Exchange2019 => 7
  }

  /** `ServerVersion::lower`. */
  function Lower(v: ServerVersion): (r: Option<ServerVersion>)
    ensures r.Some? ==> Rank(r.value) == Rank(v) - 1
    ensures r.None? <==> Rank(v) == 0
  {
    match v
    case Exchange2019 => Some(Exchange2016)
    case Exchange2016 => Some(Exchange2013Sp1)
    case Exchange2013Sp1 => Some(Exchange2013)
    case Exchange2013 => Some(Exchange2010Sp2)
    case Exchange2010Sp2 => Some(Exchange2010Sp1)
    case Exchange2010Sp1 => Some(Exchange2010)
    case Exchange2010 => Some(Exchange2007)
    case Exchange2007 => None
  }

  /** `ServerVersion::from_build`. */
  function FromBuild(major: nat, minor: nat): ServerVersion {
    if major == 8 then Exchange2007
    else if major == 14 && minor == 0 then Exchange2010
    else if major == 14 && minor == 1 then Exchange2010Sp1
    else if major == 14 && minor in {2, 3} then Exchange2010Sp2
    else if major == 15 && minor == 0 then Exchange2013
    else if major == 15 && minor == 1 then Exchange2016
    else if major == 15 && minor == 2 then Exchange2019
    else if major >= 15 then Exchange2019
    else Exchange2016
  }

  lemma RankIsInjective(v: ServerVersion, w: ServerVersion)
    requires Rank(v) == Rank(w)
    ensures v == w
  {
  }

  // ----- replies and what they call for (src/exchange_ews/retry.rs:12-45)

  datatype FaultDisposition = FatalFault | AuthFault | VersionError | RetryableFault

  /** `classify_fault`. */
  function ClassifyFault(code: ResponseCode): FaultDisposition {
    match code
    case ServerBusy(_) => RetryableFault
    case TimeoutExpired => RetryableFault
    case InternalServerTransientError => RetryableFault
    case MailboxStoreUnavailable => RetryableFault
    case ConnectionFailed => RetryableFault
    case AdUnavailable => RetryableFault
    case BatchProcessingStopped => RetryableFault
    case AuthenticationRequired => AuthFault
    case InvalidServerVersion => VersionError
    case IncorrectSchemaVersion => VersionError
    case InvalidRequest => VersionError
    case InvalidSchemaVersionForMailboxVersion => VersionError
    case _ => FatalFault
  }

  /** `classify_http_status` says `Retryable`. */
  predicate RetryableStatus(status: nat) {
    status in {429, 502, 503, 504}
  }

  /** What `read_envelope_summary` makes of the body of a reply. */
  datatype Summary =
    | Body(major: Option<nat>, minor: Option<nat>)
    | Fault(code: ResponseCode)
    | Unreadable

  /** The version a body reports, `to_server_version`. */
  function Reported(body: Summary): Option<ServerVersion>
    requires body.Body?
  {
    if body.major.Some? && body.minor.Some? then Some(FromBuild(body.major.value, body.minor.value)) else None
  }

  datatype Reply = Answer(status: nat, summary: Summary) | TransportFailure

  datatype Error =
    | SoapFault(code: ResponseCode)
    | EveryVersionRejected(code: ResponseCode)
    | Auth
    | HttpStatus(status: nat)
    | RetriesExhausted
    | Transport
    | Malformed

  datatype Result = Response(reported: Option<ServerVersion>) | Failure(error: Error)

  type Server = (nat, ServerVersion) -> Reply

  // ----- what one call does, as a function of the server

  /** What a reply to an envelope calls for: the call ends, a lower version is tried, or the same version again unless
      the retries are used up, when the call fails with `giveUp`. */
  datatype Verdict = Ends(result: Result) | Lowers(to: ServerVersion) | Waits(giveUp: Error)

  function JudgeFault(code: ResponseCode, sent: ServerVersion): (r: Verdict)
    ensures r.Lowers? ==> Rank(r.to) == Rank(sent) - 1
    ensures r.Ends? ==> r.result.Failure?
  {
    match ClassifyFault(code)
    case FatalFault => Ends(Failure(SoapFault(code)))
    case AuthFault => Ends(Failure(Auth))
    case VersionError =>
      if Lower(sent).Some? then Lowers(Lower(sent).value) else Ends(Failure(EveryVersionRejected(code)))
    case RetryableFault => Waits(RetriesExhausted)
  }

  /** A fault is read in every reply except those with status 401 and 403; outside 2xx anything else goes by the
      status. */
  function Judge(reply: Reply, sent: ServerVersion): (r: Verdict)
    ensures r.Lowers? ==> Rank(r.to) == Rank(sent) - 1
  {
    match reply
    case TransportFailure => Waits(Transport)
    case Answer(status, summary) =>
      if summary.Fault? && status != 401 && status != 403 then JudgeFault(summary.code, sent)
      else if 200 <= status < 300 then
        (if summary.Body? then Ends(Response(Reported(summary))) else Ends(Failure(Malformed)))
      else if status == 401 || status == 456 then Ends(Failure(Auth))
      else if RetryableStatus(status) then Waits(RetriesExhausted)
      else Ends(Failure(HttpStatus(status)))
  }

  /** A whole call: the versions sent, the result, the version the client holds afterwards, and the replies counted in
      `retries_total`. */
  datatype Run = Run(sent: seq<ServerVersion>, result: Result, version: ServerVersion, retries: nat)

  function VersionAfter(result: Result, v: ServerVersion): ServerVersion {
    if result.Response? then result.reported.GetOr(v) else v
  }

  /** One more envelope before the rest of a call, whose reply counted as `retries` retries. */
  function Prepend(v: ServerVersion, retries: nat, rest: Run): Run {
    Run([v] + rest.sent, rest.result, rest.version, retries + rest.retries)
  }

  /** The rest of a call whose next envelope is number `i`, with version `v` and `left` retries left. */
  function RunFrom(server: Server, i: nat, v: ServerVersion, left: nat): Run
    decreases Rank(v) + left
  {
    match Judge(server(i, v), v)
    case Ends(result) => Run([v], result, VersionAfter(result, v), 0)
    case Lowers(w) =>
      assert Rank(w) < Rank(v);
      Prepend(v, 0, RunFrom(server, i + 1, w, left))
    case Waits(giveUp) =>
      if left == 0 then Run([v], Failure(giveUp), v, 1)
      else Prepend(v, 1, RunFrom(server, i + 1, v, left - 1))
  }

  /** After sending `sent` and counting `retries` replies, `rest` completes the call `whole`. */
  ghost predicate Resumes(whole: Run, sent: seq<ServerVersion>, retries: nat, rest: Run) {
    whole == Run(sent + rest.sent, rest.result, rest.version, retries + rest.retries)
  }

  lemma Begin(whole: Run)
    ensures Resumes(whole, [], 0, whole)
  {
    assert [] + whole.sent == whole.sent;
  }

  lemma ResumesAlone(whole: Run, sent: seq<ServerVersion>, retries: nat, v: ServerVersion, rest: Run)
    requires Resumes(whole, sent, retries, rest) && rest.sent == [v]
    ensures whole == Run(sent + [v], rest.result, rest.version, retries + rest.retries)
  {
  }

  lemma ResumesPrepend(whole: Run, sent: seq<ServerVersion>, retries: nat, v: ServerVersion, more: nat, rest: Run)
    requires Resumes(whole, sent, retries, Prepend(v, more, rest))
    ensures Resumes(whole, sent + [v], retries + more, rest)
  {
    assert (sent + [v]) + rest.sent == sent + ([v] + rest.sent);
  }

  /** One more envelope, by what its reply calls for. */
  lemma Resume(whole: Run, server: Server, sent: seq<ServerVersion>, retries: nat, v: ServerVersion, left: nat)
    requires Resumes(whole, sent, retries, RunFrom(server, |sent|, v, left))
    ensures
      var now := sent + [v];
      match Judge(server(|sent|, v), v)
      case Ends(result) => whole == Run(now, result, VersionAfter(result, v), retries)
      case Lowers(w) => Resumes(whole, now, retries, RunFrom(server, |sent| + 1, w, left))
      case Waits(giveUp) =>
        if left == 0 then whole == Run(now, Failure(giveUp), v, retries + 1)
        else Resumes(whole, now, retries + 1, RunFrom(server, |sent| + 1, v, left - 1))
  {
    hide Judge, Prepend, Resumes, VersionAfter, Rank, Lower;
    match Judge(server(|sent|, v), v)
    case Ends(result) =>
      ResumesAlone(whole, sent, retries, v, RunFrom(server, |sent|, v, left));
    case Lowers(w) =>
      ResumesPrepend(whole, sent, retries, v, 0, RunFrom(server, |sent| + 1, w, left));
    case Waits(_) =>
      if left == 0 {
        ResumesAlone(whole, sent, retries, v, RunFrom(server, |sent|, v, left));
      } else {
        ResumesPrepend(whole, sent, retries, v, 1, RunFrom(server, |sent| + 1, v, left - 1));
      }
  }

  // ----- what holds of every call, whatever the server

  /** What the reply to envelope `k` of a call calls for. */
  ghost function VerdictAt(server: Server, i: nat, sent: seq<ServerVersion>, k: nat): Verdict
    requires k < |sent|
  {
    Judge(server(i + k, sent[k]), sent[k])
  }

  predicate Answers(next: ServerVersion, verdict: Verdict, previous: ServerVersion) {
    match verdict
    case Ends(_) => false
    case Lowers(w) => next == w
    case Waits(_) => next == previous
  }

  /** Every envelope after the first answers the reply before it: the version is the same after a reply that asks for
      patience, and the next lower one after a refusal. */
  ghost predicate EachAnswers(server: Server, i: nat, sent: seq<ServerVersion>) {
    forall k :: 0 <= k < |sent| - 1 ==> Answers(sent[k + 1], VerdictAt(server, i, sent, k), sent[k])
  }

  /** The last reply ends the call, or asks for patience once too often. */
  ghost predicate LastDecides(verdict: Verdict, left: nat, run: Run)
    requires run.sent != []
  {
    match verdict
    case Ends(result) => run.result == result && run.retries <= left
    case Lowers(_) => false
    case Waits(giveUp) => run.result == Failure(giveUp) && run.retries == left + 1
  }

  lemma FollowsOneMore(server: Server, i: nat, v: ServerVersion, sent: seq<ServerVersion>)
    requires sent != [] && EachAnswers(server, i + 1, sent)
    requires Answers(sent[0], Judge(server(i, v), v), v)
    ensures EachAnswers(server, i, [v] + sent)
    ensures VerdictAt(server, i, [v] + sent, |sent|) == VerdictAt(server, i + 1, sent, |sent| - 1)
  {
    hide Judge, Answers;
    var all := [v] + sent;
    forall k | 0 <= k < |all| - 1
      ensures Answers(all[k + 1], VerdictAt(server, i, all, k), all[k])
    {
      if k > 0 {
        assert all[k] == sent[k - 1] && all[k + 1] == sent[k - 1 + 1];
        assert Answers(sent[k - 1 + 1], VerdictAt(server, i + 1, sent, k - 1), sent[k - 1]);
      }
    }
  }

  lemma {:induction false} CallFollowsReplies(server: Server, i: nat, v: ServerVersion, left: nat)
    ensures
      var run := RunFrom(server, i, v, left);
      && run.sent != [] && run.sent[0] == v
      && EachAnswers(server, i, run.sent)
      && LastDecides(VerdictAt(server, i, run.sent, |run.sent| - 1), left, run)
    decreases Rank(v) + left
  {
    hide Judge, EachAnswers, VerdictAt;
    match Judge(server(i, v), v)
    case Ends(_) =>
      FollowsAlone(server, i, v);
    case Lowers(w) =>
      CallFollowsReplies(server, i + 1, w, left);
      FollowsOneMore(server, i, v, RunFrom(server, i + 1, w, left).sent);
    case Waits(_) =>
      if left == 0 {
        FollowsAlone(server, i, v);
      } else {
        CallFollowsReplies(server, i + 1, v, left - 1);
        FollowsOneMore(server, i, v, RunFrom(server, i + 1, v, left - 1).sent);
      }
  }

  lemma FollowsAlone(server: Server, i: nat, v: ServerVersion)
    ensures EachAnswers(server, i, [v])
    ensures VerdictAt(server, i, [v], 0) == Judge(server(i, v), v)
  {
  }

  /** Every envelope is paid for, by a step down the ladder or by a retry. */
  ghost predicate PaidFor(v: ServerVersion, left: nat, run: Run) {
    && run.sent != []
    && run.retries <= left + 1
    && |run.sent| + Rank(run.sent[|run.sent| - 1]) == 1 + Rank(v) + Least(left, run.retries)
  }

  function Least(m: nat, n: nat): nat {
    if m < n then m else n
  }

  lemma PaidForOneMore(v: ServerVersion, w: ServerVersion, left: nat, retries: nat, rest: Run)
    requires PaidFor(w, left, rest)
    requires Rank(v) == Rank(w) + (1 - retries) && retries <= 1
    ensures PaidFor(v, left + retries, Prepend(v, retries, rest))
  {
    hide Rank;
    var run := Prepend(v, retries, rest);
    assert run.sent[|run.sent| - 1] == rest.sent[|rest.sent| - 1];
  }

  lemma {:induction false} EnvelopesArePaidFor(server: Server, i: nat, v: ServerVersion, left: nat)
    ensures PaidFor(v, left, RunFrom(server, i, v, left))
    ensures |RunFrom(server, i, v, left).sent| <= left + Rank(v) + 1
    decreases Rank(v) + left
  {
    hide Judge, Rank, Prepend;
    match Judge(server(i, v), v)
    case Ends(_) =>
    case Lowers(w) =>
      EnvelopesArePaidFor(server, i + 1, w, left);
      PaidForOneMore(v, w, left, 0, RunFrom(server, i + 1, w, left));
    case Waits(_) =>
      if left > 0 {
        EnvelopesArePaidFor(server, i + 1, v, left - 1);
        PaidForOneMore(v, v, left - 1, 1, RunFrom(server, i + 1, v, left - 1));
      }
  }

  lemma {:induction false} VersionNeverRises(server: Server, i: nat, sent: seq<ServerVersion>, j: nat, k: nat)
    requires EachAnswers(server, i, sent)
    requires j <= k < |sent|
    ensures Rank(sent[k]) <= Rank(sent[j])
  {
    hide Judge;
    if j < k {
      VersionNeverRises(server, i, sent, j, k - 1);
      assert Answers(sent[k - 1 + 1], VerdictAt(server, i, sent, k - 1), sent[k - 1]);
    }
  }

  /** The client keeps the version it sent last, unless the body it returns reports another. */
  lemma {:induction false} VersionKept(server: Server, i: nat, v: ServerVersion, left: nat)
    ensures
      var run := RunFrom(server, i, v, left);
      run.sent != [] && run.version == VersionAfter(run.result, run.sent[|run.sent| - 1])
    decreases Rank(v) + left
  {
    hide Judge;
    match Judge(server(i, v), v)
    case Ends(_) =>
    case Lowers(w) =>
      VersionKept(server, i + 1, w, left);
    case Waits(_) =>
      if left > 0 {
        VersionKept(server, i + 1, v, left - 1);
      }
  }

  // ----- two servers

  predicate Refuses(reply: Reply) {
    reply.Answer? && reply.summary.Fault? && reply.status != 401 && reply.status != 403
    && ClassifyFault(reply.summary.code) == VersionError
  }

  /** A server that answers one schema version and refuses the others. */
  ghost predicate Speaks(server: Server, w: ServerVersion) {
    forall i, u ::
      if u == w then server(i, u).Answer? && 200 <= server(i, u).status < 300 && server(i, u).summary.Body?
      else Refuses(server(i, u))
  }

  /** The version a server speaks is found exactly when it is not above the version the call starts with; the search
      costs one envelope a step and no retry, so it needs none left. */
  lemma {:induction false} SpokenVersionIsFound(server: Server, w: ServerVersion, i: nat, v: ServerVersion, left: nat)
    requires Speaks(server, w)
    ensures
      var run := RunFrom(server, i, v, left);
      && (run.result.Response? <==> Rank(w) <= Rank(v))
      && (run.result.Failure? ==> run.result.error.EveryVersionRejected?)
      && |run.sent| == 1 + Rank(v) - (if Rank(w) <= Rank(v) then Rank(w) else 0)
      && run.retries == 0
    decreases Rank(v)
  {
    if v != w {
      assert Refuses(server(i, v));
      if Lower(v).Some? {
        if Rank(v) == Rank(w) {
          RankIsInjective(v, w);
        }
        SpokenVersionIsFound(server, w, i + 1, Lower(v).value, left);
      } else {
        assert Rank(v) == 0;
        if Rank(w) == 0 {
          RankIsInjective(v, w);
        }
      }
    }
  }

  /** A server that refuses every version but the oldest, and is too busy to answer that one. */
  function Worst(i: nat, u: ServerVersion): Reply {
    if Rank(u) > 0 then Answer(500, Fault(InvalidServerVersion)) else Answer(503, Unreadable)
  }

  /** No smaller bound on the envelopes of a call holds. */
  lemma {:induction false} BoundIsReached(i: nat, v: ServerVersion, left: nat)
    ensures |RunFrom(Worst, i, v, left).sent| == left + Rank(v) + 1
    decreases Rank(v) + left
  {
    if Rank(v) > 0 {
      BoundIsReached(i + 1, Lower(v).value, left);
    } else if left > 0 {
      BoundIsReached(i + 1, v, left - 1);
    }
  }

  // ----- the client

  datatype FaultStep = Fail(error: Error) | Sleep | Downgrade(to: ServerVersion)

  class Client {
    const maxRetries: nat
    var version: ServerVersion
    var retriesTotal: nat

    constructor (maxRetries: nat)
      ensures this.maxRetries == maxRetries
      ensures version == Exchange2013Sp1 && retriesTotal == 0
    {
      this.maxRetries := maxRetries;
      version := Exchange2013Sp1;
      retriesTotal := 0;
    }

    /** `on_fault`; the new value of `attempt` is returned. */
    method OnFault(code: ResponseCode, sent: ServerVersion, attempt: nat) returns (step: FaultStep, attempts: nat)
      modifies this`retriesTotal
      ensures JudgeFault(code, sent).Waits? <==> attempts == attempt + 1
      ensures attempts != attempt + 1 ==> attempts == attempt
      ensures retriesTotal == old(retriesTotal) + (attempts - attempt)
      ensures
        step ==
        match JudgeFault(code, sent)
        case Ends(result) => Fail(result.error)
        case Lowers(w) => Downgrade(w)
        case Waits(giveUp) => if attempt + 1 > maxRetries then Fail(giveUp) else Sleep
    {
      attempts := attempt;
      match ClassifyFault(code) {
        case FatalFault => step := Fail(SoapFault(code));
        case AuthFault => step := Fail(Auth);
        case VersionError =>
          match Lower(sent) {
            case Some(next) => step := Downgrade(next);
            case None => step := Fail(EveryVersionRejected(code));
          }
        case RetryableFault =>
          attempts := attempts + 1;
          retriesTotal := retriesTotal + 1;
          step := if attempts > maxRetries then Fail(RetriesExhausted) else Sleep;
      }
    }

    /** `execute`. */
    method Execute(server: Server) returns (result: Result, sent: seq<ServerVersion>)
      modifies this`version, this`retriesTotal
      ensures retriesTotal >= old(retriesTotal)
      ensures
        Run(sent, result, version, retriesTotal - old(retriesTotal)) == RunFrom(server, 0, old(version), maxRetries)
    {
      hide RunFrom, Resumes, JudgeFault;
      ghost var whole := RunFrom(server, 0, version, maxRetries);
      var attempt: nat := 0;
      sent := [];
      Begin(whole);
      while true
        invariant attempt <= maxRetries
        invariant retriesTotal == old(retriesTotal) + attempt
        invariant Resumes(whole, sent, attempt, RunFrom(server, |sent|, version, maxRetries - attempt))
        decreases Rank(version) + (maxRetries - attempt)
      {
        Resume(whole, server, sent, attempt, version, maxRetries - attempt);
        var sentVersion := version;
        var reply := server(|sent|, sentVersion);
        sent := sent + [sentVersion];
        match reply {
          case TransportFailure =>
            attempt := attempt + 1;
            retriesTotal := retriesTotal + 1;
            if attempt > maxRetries {
              return Failure(Transport), sent;
            }
          case Answer(status, summary) =>
            if 200 <= status < 300 {
              match summary {
                case Body(_, _) =>
                  var reported := Reported(summary);
                  if reported.Some? {
                    version := reported.value;
                  }
                  return Response(reported), sent;
                case Fault(code) =>
                  var step;
                  step, attempt := OnFault(code, sentVersion, attempt);
                  match step {
                    case Fail(error) => return Failure(error), sent;
                    case Sleep => continue;
                    case Downgrade(next) =>
                      version := next;
                      continue;
                  }
                case Unreadable =>
                  return Failure(Malformed), sent;
              }
            }
            if status != 401 && status != 403 && summary.Fault? {
              var step;
              step, attempt := OnFault(summary.code, sentVersion, attempt);
              match step {
                case Fail(error) => return Failure(error), sent;
                case Sleep => continue;
                case Downgrade(next) =>
                  version := next;
                  continue;
              }
            }
            if status == 401 {
              return Failure(Auth), sent;
            }
            if status == 456 {
              return Failure(Auth), sent;
            }
            if status == 403 {
              return Failure(HttpStatus(403)), sent;
            }
            if !RetryableStatus(status) {
              return Failure(HttpStatus(status)), sent;
            }
            attempt := attempt + 1;
            retriesTotal := retriesTotal + 1;
            if attempt > maxRetries {
              return Failure(RetriesExhausted), sent;
            }
        }
      }
    }
  }

}
