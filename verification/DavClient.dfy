/** The request loops of the WebDAV client (src/dav/client.rs:164-658): retries and redirects, and when a request
    carries the Authorization header. The server is an arbitrary function of the number of the request and of the
    request; joining addresses and reading their host and port are arbitrary functions too. */
module DavClient {
  import opened Wrappers

  const MAX_DAV_REDIRECTS: nat := 5

  type Url = string

  /** Host name and port, the default port of the scheme where none is written. */
  type Place = (string, Option<nat>)

  /** `join_absolute` and `url_host_and_port`. */
  datatype Addresses = Addresses(join: (Url, string) -> Option<Url>, place: Url -> Option<Place>)

  /** `same_host`. */
  predicate SameHost(net: Addresses, a: Url, b: Url) {
    net.place(a).Some? && net.place(b).Some? && net.place(a).value == net.place(b).value
  }

  datatype Request = Request(url: Url, auth: bool)

  /** What comes back. For the body: whether it can be read, whether it reports a usage limit
      (src/dav/retry.rs:45-65), whether it parses as a multistatus. `TransportFailure(true)` is a failure that no retry
      helps, `Connect` in the source. */
  datatype Reply =
    | Answer(status: nat, location: Option<string>, readable: bool, usageLimit: bool, multistatus: bool)
    | TransportFailure(fatal: bool)

  type Server = (nat, Request) -> Reply

  datatype Error =
    | Connect
    | TooManyRedirects
    | BadRedirect
    | MissingLocation
    | Auth
    | HttpStatus(status: nat)
    | RetriesExhausted
    | Unreadable
    | Malformed

  /** `body` says whether the caller gets the body of the reply, or none. */
  datatype Result = Response(status: nat, body: bool) | Failure(error: Error)

  // ----- reading a status (src/dav/retry.rs:20-43)

  datatype Outcome = Success | Retryable | Vanished | Denied | Fatal

  predicate IsSuccess(status: nat) {
    200 <= status < 300
  }

  predicate IsRedirect(status: nat) {
    status in {301, 302, 303, 307, 308}
  }

  /** The statuses the retry policy shared with the other protocols repeats (src/jmap/retry.rs:22-27). */
  predicate RetryableStatus(status: nat) {
    status in {429, 502, 503, 504}
  }

  /** `classify`. */
  function Classify(status: nat, usageLimit: bool): (r: Outcome)
    ensures r == Success <==> IsSuccess(status)
    ensures r == Vanished <==> status in {404, 410}
    ensures r == Denied <==> status == 401 || (status == 403 && !usageLimit)
    ensures r == Retryable <==> status in {423, 429, 502, 503, 504, 507} || (status == 403 && usageLimit)
  {
    if IsSuccess(status) then Success
    else if status == 401 then Denied
    else if status == 403 then (if usageLimit then Retryable else Denied)
    else if status == 404 || status == 410 then Vanished
    else if status in {423, 429, 502, 503, 504, 507} then Retryable
    else if RetryableStatus(status) then Retryable
    else Fatal
  }

  // ----- what a reply calls for, in each of the three loops

  /** The request ends, goes on to another address, or is sent again unless the retries are used up. */
  datatype Verdict = Ends(result: Result) | Redirects(location: string) | Waits

  type Judge = Reply -> Verdict

  function JudgeOutcome(outcome: Outcome, status: nat): Verdict {
    match outcome
    case Denied => Ends(Failure(Auth))
    case Retryable => Waits
    case _ => Ends(Failure(HttpStatus(status)))
  }

  function JudgeTransport(fatal: bool): Verdict {
    if fatal then Ends(Failure(Connect)) else Waits
  }

  /** `get_stream`: what has vanished is an empty stream, and a redirect to nowhere is an error status. */
  function JudgeStream(reply: Reply): Verdict {
    match reply
    case TransportFailure(fatal) => JudgeTransport(fatal)
    case Answer(status, location, _, usageLimit, _) =>
      if IsSuccess(status) then Ends(Response(status, true))
      else if status in {404, 410} then Ends(Response(status, false))
      else if IsRedirect(status) && location.Some? then Redirects(location.value)
      else JudgeOutcome(Classify(status, usageLimit), status)
  }

  /** `execute`: what has vanished is a response like any other. */
  function JudgeExchange(reply: Reply): Verdict {
    match reply
    case TransportFailure(fatal) => JudgeTransport(fatal)
    case Answer(status, location, _, usageLimit, _) =>
      if IsSuccess(status) || status in {404, 410} then Ends(Response(status, true))
      else if IsRedirect(status) then
        (if location.Some? then Redirects(location.value) else Ends(Failure(MissingLocation)))
      else JudgeOutcome(Classify(status, usageLimit), status)
  }

  /** `stream_multistatus`: the body has to be readable, and after 2xx a multistatus. */
  function JudgeMultistatus(reply: Reply): Verdict {
    match reply
    case TransportFailure(fatal) => JudgeTransport(fatal)
    case Answer(status, location, readable, usageLimit, multistatus) =>
      if IsSuccess(status) then
        Ends(if multistatus then Response(status, true) else Failure(Malformed))
      else if IsRedirect(status) then
        (if location.Some? then Redirects(location.value) else Ends(Failure(MissingLocation)))
      else if !readable then Ends(Failure(Unreadable))
      else if status in {404, 410} then Ends(Response(status, false))
      else JudgeOutcome(Classify(status, usageLimit), status)
  }

  // ----- a run of any of the loops, as a function of the server

  datatype Run = Run(sent: seq<Request>, result: Result, retries: nat)

  function Prepend(request: Request, retries: nat, rest: Run): Run {
    Run([request] + rest.sent, rest.result, retries + rest.retries)
  }

  /** The request after a redirect: the header stays only while the address is on the host the caller named. */
  function Follow(net: Addresses, origin: Url, request: Request, location: string): Option<Request> {
    var next :- net.join(request.url, location);
    Some(Request(next, request.auth && SameHost(net, origin, next)))
  }

  datatype Setting = Setting(net: Addresses, judge: Judge, server: Server, origin: Url)

  /** The rest of a run whose next request is number `i`, with `hops` redirects and `left` retries left. */
  function RunFrom(s: Setting, i: nat, request: Request, hops: nat, left: nat): Run
    decreases hops + left
  {
    match s.judge(s.server(i, request))
    case Ends(result) => Run([request], result, 0)
    case Redirects(location) =>
      if hops == 0 then Run([request], Failure(TooManyRedirects), 0)
      else
        (match Follow(s.net, s.origin, request, location)
         case None => Run([request], Failure(BadRedirect), 0)
         case Some(next) => Prepend(request, 0, RunFrom(s, i + 1, next, hops - 1, left)))
    case Waits =>
      if left == 0 then Run([request], Failure(RetriesExhausted), 1)
      else Prepend(request, 1, RunFrom(s, i + 1, request, hops, left - 1))
  }

  function WholeRun(s: Setting, maxRetries: nat): Run {
    RunFrom(s, 0, Request(s.origin, true), MAX_DAV_REDIRECTS, maxRetries)
  }

  /** After sending `sent` and counting `retries` replies, `rest` completes the run `whole`. */
  ghost predicate Resumes(whole: Run, sent: seq<Request>, retries: nat, rest: Run) {
    whole == Run(sent + rest.sent, rest.result, retries + rest.retries)
  }

  lemma Begin(whole: Run)
    ensures Resumes(whole, [], 0, whole)
  {
    assert [] + whole.sent == whole.sent;
  }

  lemma ResumesAlone(whole: Run, sent: seq<Request>, retries: nat, request: Request, rest: Run)
    requires Resumes(whole, sent, retries, rest) && rest.sent == [request]
    ensures whole == Run(sent + [request], rest.result, retries + rest.retries)
  {
  }

  lemma ResumesPrepend(whole: Run, sent: seq<Request>, retries: nat, request: Request, more: nat, rest: Run)
    requires Resumes(whole, sent, retries, Prepend(request, more, rest))
    ensures Resumes(whole, sent + [request], retries + more, rest)
  {
    assert (sent + [request]) + rest.sent == sent + ([request] + rest.sent);
  }

  /** One more request, by what its reply calls for. */
  lemma Resume(s: Setting, whole: Run, sent: seq<Request>, retries: nat, request: Request, hops: nat, left: nat)
    requires Resumes(whole, sent, retries, RunFrom(s, |sent|, request, hops, left))
    ensures
      var now := sent + [request];
      match s.judge(s.server(|sent|, request))
      case Ends(result) => whole == Run(now, result, retries)
      case Redirects(location) =>
        if hops == 0 then whole == Run(now, Failure(TooManyRedirects), retries)
        else
          (match Follow(s.net, s.origin, request, location)
           case None => whole == Run(now, Failure(BadRedirect), retries)
           case Some(next) => Resumes(whole, now, retries, RunFrom(s, |sent| + 1, next, hops - 1, left)))
      case Waits =>
        if left == 0 then whole == Run(now, Failure(RetriesExhausted), retries + 1)
        else Resumes(whole, now, retries + 1, RunFrom(s, |sent| + 1, request, hops, left - 1))
  {
    hide Prepend, Resumes, Follow;
    var rest := RunFrom(s, |sent|, request, hops, left);
    match s.judge(s.server(|sent|, request))
    case Ends(_) =>
      ResumesAlone(whole, sent, retries, request, rest);
    case Redirects(location) =>
      if hops == 0 || Follow(s.net, s.origin, request, location).None? {
        ResumesAlone(whole, sent, retries, request, rest);
      } else {
        var next := Follow(s.net, s.origin, request, location).value;
        ResumesPrepend(whole, sent, retries, request, 0, RunFrom(s, |sent| + 1, next, hops - 1, left));
      }
    case Waits =>
      if left == 0 {
        ResumesAlone(whole, sent, retries, request, rest);
      } else {
        ResumesPrepend(whole, sent, retries, request, 1, RunFrom(s, |sent| + 1, request, hops, left - 1));
      }
  }

  // ----- what holds of every run of every loop, whatever the server

  /** At most one request for each redirect and each retry, and one more. */
  lemma {:induction false} RequestsAreBounded(s: Setting, i: nat, request: Request, hops: nat, left: nat)
    ensures
      var run := RunFrom(s, i, request, hops, left);
      && 1 <= |run.sent| <= 1 + hops + left
      && run.retries <= left + 1
      && (run.retries == left + 1 ==> run.result == Failure(RetriesExhausted))
    decreases hops + left
  {
    hide Follow;
    match s.judge(s.server(i, request))
    case Ends(_) =>
    case Redirects(location) =>
      if hops > 0 && Follow(s.net, s.origin, request, location).Some? {
        RequestsAreBounded(s, i + 1, Follow(s.net, s.origin, request, location).value, hops - 1, left);
      }
    case Waits =>
      if left > 0 {
        RequestsAreBounded(s, i + 1, request, hops, left - 1);
      }
  }

  /** What the reply to request `k` of a run calls for. */
  ghost function VerdictAt(s: Setting, i: nat, sent: seq<Request>, k: nat): Verdict
    requires k < |sent|
  {
    s.judge(s.server(i + k, sent[k]))
  }

  predicate Answers(s: Setting, next: Request, verdict: Verdict, previous: Request) {
    match verdict
    case Ends(_) => false
    case Redirects(location) => Follow(s.net, s.origin, previous, location) == Some(next)
    case Waits => next == previous
  }

  /** Every request after the first answers the reply before it: it is repeated or redirected. */
  ghost predicate EachAnswers(s: Setting, i: nat, sent: seq<Request>) {
    forall k :: 0 <= k < |sent| - 1 ==> Answers(s, sent[k + 1], VerdictAt(s, i, sent, k), sent[k])
  }

  /** The last reply ends the run, or asks for a redirect or a retry that is refused. */
  predicate LastDecides(s: Setting, last: Request, verdict: Verdict, result: Result) {
    match verdict
    case Ends(final) => result == final
    case Redirects(location) =>
      || result == Failure(TooManyRedirects)
      || (result == Failure(BadRedirect) && s.net.join(last.url, location).None?)
    case Waits => result == Failure(RetriesExhausted)
  }

  lemma FollowsAlone(s: Setting, i: nat, request: Request)
    ensures EachAnswers(s, i, [request])
    ensures VerdictAt(s, i, [request], 0) == s.judge(s.server(i, request))
  {
  }

  lemma FollowsOneMore(s: Setting, i: nat, request: Request, sent: seq<Request>)
    requires sent != [] && EachAnswers(s, i + 1, sent)
    requires Answers(s, sent[0], s.judge(s.server(i, request)), request)
    ensures EachAnswers(s, i, [request] + sent)
    ensures VerdictAt(s, i, [request] + sent, |sent|) == VerdictAt(s, i + 1, sent, |sent| - 1)
  {
    hide Answers;
    var all := [request] + sent;
    forall k | 0 <= k < |all| - 1
      ensures Answers(s, all[k + 1], VerdictAt(s, i, all, k), all[k])
    {
      if k > 0 {
        assert all[k] == sent[k - 1] && all[k + 1] == sent[k - 1 + 1];
        assert Answers(s, sent[k - 1 + 1], VerdictAt(s, i + 1, sent, k - 1), sent[k - 1]);
      }
    }
  }

  lemma {:induction false} RunFollowsReplies(s: Setting, i: nat, request: Request, hops: nat, left: nat)
    ensures
      var run := RunFrom(s, i, request, hops, left);
      && run.sent != [] && run.sent[0] == request
      && EachAnswers(s, i, run.sent)
      && LastDecides(s, run.sent[|run.sent| - 1], VerdictAt(s, i, run.sent, |run.sent| - 1), run.result)
    decreases hops + left
  {
    hide EachAnswers, VerdictAt;
    match s.judge(s.server(i, request))
    case Ends(_) =>
      FollowsAlone(s, i, request);
    case Redirects(location) =>
      if hops == 0 || Follow(s.net, s.origin, request, location).None? {
        FollowsAlone(s, i, request);
      } else {
        var next := Follow(s.net, s.origin, request, location).value;
        RunFollowsReplies(s, i + 1, next, hops - 1, left);
        FollowsOneMore(s, i, request, RunFrom(s, i + 1, next, hops - 1, left).sent);
      }
    case Waits =>
      if left == 0 {
        FollowsAlone(s, i, request);
      } else {
        RunFollowsReplies(s, i + 1, request, hops, left - 1);
        FollowsOneMore(s, i, request, RunFrom(s, i + 1, request, hops, left - 1).sent);
      }
  }

  /** Request `k` was reached by a redirect to another host than the one the caller named. */
  ghost predicate LeavesHost(s: Setting, i: nat, sent: seq<Request>, k: nat)
    requires 0 < k < |sent|
  {
    VerdictAt(s, i, sent, k - 1).Redirects? && !SameHost(s.net, s.origin, sent[k].url)
  }

  /** A request carries the header exactly when no redirect so far has left the host the caller named; so the header
      never comes back. */
  lemma {:induction false} HeaderStaysHome(s: Setting, i: nat, sent: seq<Request>, k: nat)
    requires EachAnswers(s, i, sent) && k < |sent| && sent[0] == Request(s.origin, true)
    ensures sent[k].auth <==> (forall j :: 0 < j <= k ==> !LeavesHost(s, i, sent, j))
    ensures sent[k].auth ==> sent[k].url == s.origin || SameHost(s.net, s.origin, sent[k].url)
  {
    hide SameHost;
    if k > 0 {
      HeaderStaysHome(s, i, sent, k - 1);
      assert Answers(s, sent[k - 1 + 1], VerdictAt(s, i, sent, k - 1), sent[k - 1]);
      assert sent[k].auth <==> sent[k - 1].auth && !LeavesHost(s, i, sent, k);
    }
  }

  /** A run starts with the address and the header, so all of the above is about it; and it never sends more than six
      requests beyond its retries. */
  lemma WholeRunIsSafe(s: Setting, maxRetries: nat, k: nat)
    requires k < |WholeRun(s, maxRetries).sent|
    ensures |WholeRun(s, maxRetries).sent| <= 1 + maxRetries + 5
    ensures
      var request := WholeRun(s, maxRetries).sent[k];
      request.auth ==> request.url == s.origin || SameHost(s.net, s.origin, request.url)
    ensures
      forall j :: 0 <= j <= k && WholeRun(s, maxRetries).sent[k].auth ==> WholeRun(s, maxRetries).sent[j].auth
  {
    hide RunFrom, EachAnswers, LastDecides, SameHost;
    var sent := WholeRun(s, maxRetries).sent;
    RequestsAreBounded(s, 0, Request(s.origin, true), MAX_DAV_REDIRECTS, maxRetries);
    RunFollowsReplies(s, 0, Request(s.origin, true), MAX_DAV_REDIRECTS, maxRetries);
    HeaderStaysHome(s, 0, sent, k);
    forall j | 0 <= j <= k && sent[k].auth
      ensures sent[j].auth
    {
      HeaderStaysHome(s, 0, sent, j);
    }
  }

  /** What a loop returns as a response is the last reply, whose status says success or that nothing is there. */
  lemma ResponseIsGenuine(s: Setting, i: nat, request: Request, hops: nat, left: nat)
    requires s.judge in {JudgeStream, JudgeExchange, JudgeMultistatus}
    requires RunFrom(s, i, request, hops, left).result.Response?
    ensures
      var run := RunFrom(s, i, request, hops, left);
      && run.sent != []
      && var last := |run.sent| - 1;
         var reply := s.server(i + last, run.sent[last]);
         && reply.Answer? && reply.status == run.result.status
         && (IsSuccess(reply.status) || reply.status in {404, 410})
  {
    hide RunFrom, EachAnswers, Classify;
    RunFollowsReplies(s, i, request, hops, left);
  }

  // ----- the loops compared

  /** Reading a stream and a plain exchange part ways on a redirect to nowhere, and on what has vanished. */
  lemma StreamAndExchangeAgree(reply: Reply)
    ensures
      JudgeStream(reply) == JudgeExchange(reply)
      <==>
      (reply.Answer? ==> reply.status !in {404, 410} && (IsRedirect(reply.status) ==> reply.location.Some?))
  {
  }

  /** A plain exchange and a multistatus part ways on a body that does not parse or cannot be read, and on what has
      vanished. */
  lemma ExchangeAndMultistatusAgree(reply: Reply)
    ensures
      JudgeExchange(reply) == JudgeMultistatus(reply)
      <==>
      (reply.Answer? && !IsRedirect(reply.status) ==>
         if IsSuccess(reply.status) then reply.multistatus else reply.readable && reply.status !in {404, 410})
  {
  }

  /** Where two loops read a reply differently, the first one's request ends, not for want of retries, and the second
      one's is at most sent again. */
  ghost predicate StopsFirst(a: Judge, b: Judge) {
    forall reply ::
      a(reply) != b(reply) ==>
        a(reply).Ends? && a(reply).result != Failure(RetriesExhausted) && !b(reply).Redirects?
  }

  /** The last reply of a run. */
  ghost function LastReply(s: Setting, i: nat, run: Run): Reply
    requires run.sent != []
  {
    s.server(i + |run.sent| - 1, run.sent[|run.sent| - 1])
  }

  lemma SentSomething(s: Setting, i: nat, request: Request, hops: nat, left: nat)
    ensures RunFrom(s, i, request, hops, left).sent != []
  {
    hide Follow;
  }

  lemma LastAfter(s: Setting, i: nat, request: Request, retries: nat, rest: Run)
    requires rest.sent != []
    ensures LastReply(s, i, Prepend(request, retries, rest)) == LastReply(s, i + 1, rest)
  {
    var all := [request] + rest.sent;
    assert all[|all| - 1] == rest.sent[|rest.sent| - 1];
  }

  lemma PrependCompares(request: Request, retries: nat, a: Run, b: Run)
    ensures Prepend(request, retries, a) == Prepend(request, retries, b) <==> a == b
    ensures a.sent <= b.sent ==> Prepend(request, retries, a).sent <= Prepend(request, retries, b).sent
  {
    var x, y := Prepend(request, retries, a), Prepend(request, retries, b);
    assert x.sent[1..] == a.sent && y.sent[1..] == b.sent;
  }

  /** What two runs against the same server have in common. */
  ghost predicate Compare(s: Setting, judge: Judge, i: nat, a: Run, b: Run)
    requires a.sent != []
  {
    var last := LastReply(s, i, a);
    && a.sent <= b.sent
    && (a == b <==> s.judge(last) == judge(last))
    && (judge(last).Ends? ==> a.sent == b.sent && a.retries == b.retries)
  }

  lemma CompareOneMore(s: Setting, judge: Judge, i: nat, request: Request, retries: nat, a: Run, b: Run)
    requires a.sent != [] && Compare(s, judge, i + 1, a, b)
    ensures Compare(s, judge, i, Prepend(request, retries, a), Prepend(request, retries, b))
  {
    hide LastReply;
    LastAfter(s, i, request, retries, a);
    PrependCompares(request, retries, a, b);
  }

  /** The first loop sends some of the requests that the second sends, in the same order; and they agree in everything
      exactly when they read the first one's last reply alike. */
  lemma {:induction false} RunsCompared(s: Setting, judge: Judge, i: nat, request: Request, hops: nat, left: nat)
    requires StopsFirst(s.judge, judge)
    ensures RunFrom(s, i, request, hops, left).sent != []
    ensures
      Compare(s, judge, i, RunFrom(s, i, request, hops, left), RunFrom(s.(judge := judge), i, request, hops, left))
    decreases hops + left
  {
    hide Follow, Compare;
    var t := s.(judge := judge);
    var reply := s.server(i, request);
    SentSomething(s, i, request, hops, left);
    if s.judge(reply) != judge(reply) || s.judge(reply).Ends? {
      ComparedAtEnd(s, judge, i, request, hops, left);
    } else if s.judge(reply).Redirects? {
      var next := Follow(s.net, s.origin, request, s.judge(reply).location);
      if hops == 0 || next.None? {
        ComparedAtEnd(s, judge, i, request, hops, left);
      } else {
        RunsCompared(s, judge, i + 1, next.value, hops - 1, left);
        CompareOneMore(s, judge, i, request, 0, RunFrom(s, i + 1, next.value, hops - 1, left),
                       RunFrom(t, i + 1, next.value, hops - 1, left));
      }
    } else if left == 0 {
      ComparedAtEnd(s, judge, i, request, hops, left);
    } else {
      RunsCompared(s, judge, i + 1, request, hops, left - 1);
      CompareOneMore(s, judge, i, request, 1, RunFrom(s, i + 1, request, hops, left - 1),
                     RunFrom(t, i + 1, request, hops, left - 1));
    }
  }

  lemma ComparedAtEnd(s: Setting, judge: Judge, i: nat, request: Request, hops: nat, left: nat)
    requires StopsFirst(s.judge, judge)
    requires RunFrom(s, i, request, hops, left).sent == [request]
    requires
      s.judge(s.server(i, request)) == judge(s.server(i, request)) ==>
        RunFrom(s.(judge := judge), i, request, hops, left) == RunFrom(s, i, request, hops, left)
    ensures
      Compare(s, judge, i, RunFrom(s, i, request, hops, left), RunFrom(s.(judge := judge), i, request, hops, left))
  {
    hide Follow;
  }

  lemma StreamStopsFirst()
    ensures StopsFirst(JudgeStream, JudgeExchange)
    ensures forall reply :: JudgeStream(reply) != JudgeExchange(reply) ==> JudgeExchange(reply).Ends?
  {
    hide Classify;
  }

  lemma MultistatusStopsFirst()
    ensures StopsFirst(JudgeMultistatus, JudgeExchange)
  {
    hide Classify;
  }

  /** Against every server reading a stream and a plain exchange send the same requests and count the same retries; and
      their results differ exactly when the last reply is a redirect to nowhere, or says that nothing is there. */
  lemma StreamAndExchangeRuns(s: Setting, maxRetries: nat)
    ensures
      var a, b := WholeRun(s.(judge := JudgeStream), maxRetries), WholeRun(s.(judge := JudgeExchange), maxRetries);
      && a.sent != [] && a.sent == b.sent && a.retries == b.retries
      && var last := LastReply(s, 0, a);
         a == b
         <==>
         (last.Answer? ==> last.status !in {404, 410} && (IsRedirect(last.status) ==> last.location.Some?))
  {
    hide RunFrom, JudgeStream, JudgeExchange, StopsFirst, IsRedirect;
    var t := s.(judge := JudgeStream);
    StreamStopsFirst();
    RunsCompared(t, JudgeExchange, 0, Request(s.origin, true), MAX_DAV_REDIRECTS, maxRetries);
    assert t.(judge := JudgeExchange) == s.(judge := JudgeExchange);
    StreamAndExchangeAgree(LastReply(s, 0, WholeRun(t, maxRetries)));
  }

  /** A multistatus sends no other requests than a plain exchange would, but may stop before it; and they agree in
      everything exactly when its last reply is a transport failure, a redirect, a body that parses, or the readable
      body of an error other than that nothing is there. */
  lemma MultistatusAndExchangeRuns(s: Setting, maxRetries: nat)
    ensures
      var a, b := WholeRun(s.(judge := JudgeMultistatus), maxRetries), WholeRun(s.(judge := JudgeExchange), maxRetries);
      && a.sent != [] && a.sent <= b.sent
      && var last := LastReply(s, 0, a);
         a == b
         <==>
         (last.Answer? && !IsRedirect(last.status) ==>
            if IsSuccess(last.status) then last.multistatus else last.readable && last.status !in {404, 410})
  {
    hide RunFrom, JudgeMultistatus, JudgeExchange, StopsFirst, IsRedirect, IsSuccess;
    var t := s.(judge := JudgeMultistatus);
    MultistatusStopsFirst();
    RunsCompared(t, JudgeExchange, 0, Request(s.origin, true), MAX_DAV_REDIRECTS, maxRetries);
    assert t.(judge := JudgeExchange) == s.(judge := JudgeExchange);
    ExchangeAndMultistatusAgree(LastReply(s, 0, WholeRun(t, maxRetries)));
  }

  /** A server that redirects `n` times to the same address, and then is too busy. */
  function Worst(n: nat): Server {
    (i, request) => if i < n then Answer(302, Some(""), true, false, false) else Answer(503, None, true, false, false)
  }

  /** No smaller bound on the requests of a run holds, for any of the three loops. */
  lemma {:induction false} BoundIsReached(s: Setting, i: nat, request: Request, n: nat, left: nat)
    requires s.judge in {JudgeStream, JudgeExchange, JudgeMultistatus} && s.server == Worst(n)
    requires forall url :: s.net.join(url, "") == Some(url)
    ensures
      var hops := if i < n then n - i else 0;
      |RunFrom(s, i, request, hops, left).sent| == 1 + hops + left
    decreases if i < n then n - i else 0, left
  {
    if i < n {
      BoundIsReached(s, i + 1, Follow(s.net, s.origin, request, "").value, n, left);
    } else if left > 0 {
      BoundIsReached(s, i + 1, request, n, left - 1);
    }
  }

  // ----- the client

  class Client {
    const net: Addresses
    const maxRetries: nat
    var retriesTotal: nat

    constructor (net: Addresses, maxRetries: nat)
      ensures this.net == net && this.maxRetries == maxRetries && retriesTotal == 0
    {
      this.net := net;
      this.maxRetries := maxRetries;
      retriesTotal := 0;
    }

    /** `handle_status`. After 2xx it would let the loop go round without counting a retry, but it is not called
        then. */
    method HandleStatus(status: nat, usageLimit: bool, attempt: nat) returns (failed: Option<Error>, attempts: nat)
      modifies this`retriesTotal
      ensures retriesTotal == old(retriesTotal) + (attempts - attempt)
      ensures
        !IsSuccess(status) ==>
          Counts(JudgeOutcome(Classify(status, usageLimit), status), attempt, failed, attempts)
      ensures IsSuccess(status) ==> failed == None && attempts == attempt
    {
      attempts := attempt;
      match Classify(status, usageLimit) {
        case Vanished => failed := Some(HttpStatus(status));
        case Denied => failed := Some(Auth);
        case Fatal => failed := Some(HttpStatus(status));
        case Retryable =>
          attempts := attempts + 1;
          retriesTotal := retriesTotal + 1;
          failed := if attempts > maxRetries then Some(RetriesExhausted) else None;
        case Success => failed := None;
      }
    }

    /** `handle_transport`. */
    method HandleTransport(fatal: bool, attempt: nat) returns (failed: Option<Error>, attempts: nat)
      modifies this`retriesTotal
      ensures retriesTotal == old(retriesTotal) + (attempts - attempt)
      ensures Counts(JudgeTransport(fatal), attempt, failed, attempts)
    {
      attempts := attempt;
      if fatal {
        return Some(Connect), attempts;
      }
      attempts := attempts + 1;
      retriesTotal := retriesTotal + 1;
      failed := if attempts > maxRetries then Some(RetriesExhausted) else None;
    }

    /** How a reply that is no redirect changes the count of attempts. */
    ghost predicate Counts(verdict: Verdict, attempt: nat, failed: Option<Error>, attempts: nat) {
      match verdict
      case Ends(result) => result.Failure? && failed == Some(result.error) && attempts == attempt
      case Redirects(_) => false
      case Waits =>
        attempts == attempt + 1 && failed == (if attempts > maxRetries then Some(RetriesExhausted) else None)
    }

    /** `get_stream`. */
    method GetStream(server: Server, url: Url) returns (result: Result, sent: seq<Request>)
      modifies this`retriesTotal
      ensures retriesTotal >= old(retriesTotal)
      ensures
        Run(sent, result, retriesTotal - old(retriesTotal))
        == WholeRun(Setting(net, JudgeStream, server, url), maxRetries)
    {
      hide RunFrom, Resumes, Classify;
      ghost var s := Setting(net, JudgeStream, server, url);
      ghost var whole := WholeRun(s, maxRetries);
      var attempt: nat := 0;
      var currentUrl := url;
      var redirects: nat := 0;
      var includeAuth := true;
      sent := [];
      Begin(whole);
      while true
        invariant attempt <= maxRetries && redirects <= MAX_DAV_REDIRECTS
        invariant retriesTotal == old(retriesTotal) + attempt
        invariant
          Resumes(whole, sent, attempt,
                  RunFrom(s, |sent|, Request(currentUrl, includeAuth), MAX_DAV_REDIRECTS - redirects,
                          maxRetries - attempt))
        decreases (MAX_DAV_REDIRECTS - redirects) + (maxRetries - attempt)
      {
        ghost var request := Request(currentUrl, includeAuth);
        Resume(s, whole, sent, attempt, request, MAX_DAV_REDIRECTS - redirects, maxRetries - attempt);
        var reply := server(|sent|, Request(currentUrl, includeAuth));
        sent := sent + [Request(currentUrl, includeAuth)];
        if reply.TransportFailure? {
          var failed;
          failed, attempt := HandleTransport(reply.fatal, attempt);
          if failed.Some? {
            return Failure(failed.value), sent;
          }
        } else if IsSuccess(reply.status) {
          return Response(reply.status, true), sent;
        } else if reply.status == 404 || reply.status == 410 {
          return Response(reply.status, false), sent;
        } else if reply.location.Some? && IsRedirect(reply.status) {
          if redirects >= MAX_DAV_REDIRECTS {
            return Failure(TooManyRedirects), sent;
          }
          redirects := redirects + 1;
          match net.join(currentUrl, reply.location.value) {
            case None => return Failure(BadRedirect), sent;
            case Some(next) =>
              if includeAuth && !SameHost(net, url, next) {
                includeAuth := false;
              }
              currentUrl := next;
          }
        } else {
          var failed;
          failed, attempt := HandleStatus(reply.status, reply.usageLimit, attempt);
          if failed.Some? {
            return Failure(failed.value), sent;
          }
        }
      }
    }

    /** `execute`. */
    method Execute(server: Server, url: Url) returns (result: Result, sent: seq<Request>)
      modifies this`retriesTotal
      ensures retriesTotal >= old(retriesTotal)
      ensures
        Run(sent, result, retriesTotal - old(retriesTotal))
        == WholeRun(Setting(net, JudgeExchange, server, url), maxRetries)
    {
      hide RunFrom, Resumes, Classify;
      ghost var s := Setting(net, JudgeExchange, server, url);
      ghost var whole := WholeRun(s, maxRetries);
      var attempt: nat := 0;
      var currentUrl := url;
      var redirects: nat := 0;
      var includeAuth := true;
      sent := [];
      Begin(whole);
      while true
        invariant attempt <= maxRetries && redirects <= MAX_DAV_REDIRECTS
        invariant retriesTotal == old(retriesTotal) + attempt
        invariant
          Resumes(whole, sent, attempt,
                  RunFrom(s, |sent|, Request(currentUrl, includeAuth), MAX_DAV_REDIRECTS - redirects,
                          maxRetries - attempt))
        decreases (MAX_DAV_REDIRECTS - redirects) + (maxRetries - attempt)
      {
        ghost var request := Request(currentUrl, includeAuth);
        Resume(s, whole, sent, attempt, request, MAX_DAV_REDIRECTS - redirects, maxRetries - attempt);
        var reply := server(|sent|, Request(currentUrl, includeAuth));
        sent := sent + [Request(currentUrl, includeAuth)];
        if reply.TransportFailure? {
          var failed;
          failed, attempt := HandleTransport(reply.fatal, attempt);
          if failed.Some? {
            return Failure(failed.value), sent;
          }
        } else if IsSuccess(reply.status) {
          return Response(reply.status, true), sent;
        } else if reply.location.Some? && IsRedirect(reply.status) {
          if redirects >= MAX_DAV_REDIRECTS {
            return Failure(TooManyRedirects), sent;
          }
          redirects := redirects + 1;
          match net.join(currentUrl, reply.location.value) {
            case None => return Failure(BadRedirect), sent;
            case Some(next) =>
              if includeAuth && !SameHost(net, url, next) {
                includeAuth := false;
              }
              currentUrl := next;
          }
        } else if IsRedirect(reply.status) {
          return Failure(MissingLocation), sent;
        } else {
          match Classify(reply.status, reply.usageLimit) {
            case Vanished => return Response(reply.status, true), sent;
            case Denied => return Failure(Auth), sent;
            case Fatal => return Failure(HttpStatus(reply.status)), sent;
            case Retryable =>
              attempt := attempt + 1;
              retriesTotal := retriesTotal + 1;
              if attempt > maxRetries {
                return Failure(RetriesExhausted), sent;
              }
            case Success => assert false;
          }
        }
      }
    }

    /** `stream_multistatus`. The addresses in the reply are relative to `base`. */
    method StreamMultistatus(server: Server, url: Url, baseUrl: Url)
      returns (result: Result, sent: seq<Request>, base: Url)
      modifies this`retriesTotal
      ensures retriesTotal >= old(retriesTotal)
      ensures
        Run(sent, result, retriesTotal - old(retriesTotal))
        == WholeRun(Setting(net, JudgeMultistatus, server, url), maxRetries)
      ensures sent != []
      ensures base == (if sent[|sent| - 1].url == url then baseUrl else sent[|sent| - 1].url)
    {
      hide RunFrom, Resumes, Classify;
      ghost var s := Setting(net, JudgeMultistatus, server, url);
      ghost var whole := WholeRun(s, maxRetries);
      var attempt: nat := 0;
      var currentUrl := url;
      var redirects: nat := 0;
      var includeAuth := true;
      sent := [];
      Begin(whole);
      while true
        invariant attempt <= maxRetries && redirects <= MAX_DAV_REDIRECTS
        invariant retriesTotal == old(retriesTotal) + attempt
        invariant
          Resumes(whole, sent, attempt,
                  RunFrom(s, |sent|, Request(currentUrl, includeAuth), MAX_DAV_REDIRECTS - redirects,
                          maxRetries - attempt))
        decreases (MAX_DAV_REDIRECTS - redirects) + (maxRetries - attempt)
      {
        ghost var request := Request(currentUrl, includeAuth);
        Resume(s, whole, sent, attempt, request, MAX_DAV_REDIRECTS - redirects, maxRetries - attempt);
        base := if currentUrl == url then baseUrl else currentUrl;
        var reply := server(|sent|, Request(currentUrl, includeAuth));
        sent := sent + [Request(currentUrl, includeAuth)];
        if reply.TransportFailure? {
          var failed;
          failed, attempt := HandleTransport(reply.fatal, attempt);
          if failed.Some? {
            return Failure(failed.value), sent, base;
          }
        } else if IsRedirect(reply.status) {
          if reply.location.None? {
            return Failure(MissingLocation), sent, base;
          }
          if redirects >= MAX_DAV_REDIRECTS {
            return Failure(TooManyRedirects), sent, base;
          }
          redirects := redirects + 1;
          match net.join(currentUrl, reply.location.value) {
            case None => return Failure(BadRedirect), sent, base;
            case Some(next) =>
              if includeAuth && !SameHost(net, url, next) {
                includeAuth := false;
              }
              currentUrl := next;
          }
        } else if IsSuccess(reply.status) {
          if !reply.multistatus {
            return Failure(Malformed), sent, base;
          }
          return Response(reply.status, true), sent, base;
        } else {
          if !reply.readable {
            return Failure(Unreadable), sent, base;
          }
          match Classify(reply.status, reply.usageLimit) {
            case Vanished => return Response(reply.status, false), sent, base;
            case Denied => return Failure(Auth), sent, base;
            case Fatal => return Failure(HttpStatus(reply.status)), sent, base;
            case Retryable =>
              attempt := attempt + 1;
              retriesTotal := retriesTotal + 1;
              if attempt > maxRetries {
                return Failure(RetriesExhausted), sent, base;
              }
            case Success => assert false;
          }
        }
      }
    }
  }
}
