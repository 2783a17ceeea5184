/** What each of the three loops of the WebDAV client (src/dav/client.rs:164-658) does after a reply, by the number of
    its status. */
module DavReplies {
  import opened DavClient
  import opened Wrappers

  // ----- what a loop does next

  /** The run ends after this request with the result. */
  predicate EndsWith(run: Run, request: Request, result: Result) {
    run == Run([request], result, 0)
  }

  /** The same request is sent again and a retry counted, while one is left. */
  ghost predicate Repeats(run: Run, s: Setting, i: nat, request: Request, hops: nat, left: nat) {
    if left == 0 then run == Run([request], Failure(RetriesExhausted), 1)
    else
      var rest := RunFrom(s, i + 1, request, hops, left - 1);
      run == Run([request] + rest.sent, rest.result, 1 + rest.retries)
  }

  /** The next request goes to the location, seen from the address of this one; it has the header if this one has it and
      the new address is on the host and port of the address that the caller named. */
  ghost predicate Follows(run: Run, s: Setting, i: nat, request: Request, hops: nat, left: nat, location: string) {
    if hops == 0 then EndsWith(run, request, Failure(TooManyRedirects))
    else
      match s.net.join(request.url, location)
      case None => EndsWith(run, request, Failure(BadRedirect))
      case Some(url) =>
        var home := s.net.place(s.origin).Some? && s.net.place(url) == s.net.place(s.origin);
        var rest := RunFrom(s, i + 1, Request(url, request.auth && home), hops - 1, left);
        run == Run([request] + rest.sent, rest.result, rest.retries)
  }

  predicate MovedTo(status: nat) {
    status == 301 || status == 302 || status == 303 || status == 307 || status == 308
  }

  /** What is left: neither success, nor a redirect that is followed, nor 404 and 410. A limit on use makes 403 worth
      trying again. */
  ghost predicate Refused(run: Run, s: Setting, i: nat, request: Request, hops: nat, left: nat, status: nat,
      usageLimit: bool)
  {
    if status == 401 || (status == 403 && !usageLimit) then EndsWith(run, request, Failure(Auth))
    else if status == 403 || status == 423 || status == 429 || 502 <= status <= 504 || status == 507 then
      Repeats(run, s, i, request, hops, left)
    else EndsWith(run, request, Failure(HttpStatus(status)))
  }

  // ----- by status

  /** `get_stream`. */
  lemma StreamByStatus(s: Setting, i: nat, request: Request, hops: nat, left: nat, reply: Reply)
    requires s.judge == JudgeStream && s.server(i, request) == reply && reply.Answer?
    ensures
      var run, status := RunFrom(s, i, request, hops, left), reply.status;
      if 200 <= status <= 299 then EndsWith(run, request, Response(status, true))
      else if status == 404 || status == 410 then EndsWith(run, request, Response(status, false))
      else if MovedTo(status) && reply.location.Some? then
        Follows(run, s, i, request, hops, left, reply.location.value)
      else Refused(run, s, i, request, hops, left, status, reply.usageLimit)
  {
  }

  /** `execute`. */
  lemma ExchangeByStatus(s: Setting, i: nat, request: Request, hops: nat, left: nat, reply: Reply)
    requires s.judge == JudgeExchange && s.server(i, request) == reply && reply.Answer?
    ensures
      var run, status := RunFrom(s, i, request, hops, left), reply.status;
      if 200 <= status <= 299 || status == 404 || status == 410 then EndsWith(run, request, Response(status, true))
      else if MovedTo(status) then
        match reply.location
        case Some(location) => Follows(run, s, i, request, hops, left, location)
        case None => EndsWith(run, request, Failure(MissingLocation))
      else Refused(run, s, i, request, hops, left, status, reply.usageLimit)
  {
  }

  /** `stream_multistatus`. */
  lemma MultistatusByStatus(s: Setting, i: nat, request: Request, hops: nat, left: nat, reply: Reply)
    requires s.judge == JudgeMultistatus && s.server(i, request) == reply && reply.Answer?
    ensures
      var run, status := RunFrom(s, i, request, hops, left), reply.status;
      if 200 <= status <= 299 then
        EndsWith(run, request, if reply.multistatus then Response(status, true) else Failure(Malformed))
      else if MovedTo(status) then
        match reply.location
        case Some(location) => Follows(run, s, i, request, hops, left, location)
        case None => EndsWith(run, request, Failure(MissingLocation))
      else if !reply.readable then EndsWith(run, request, Failure(Unreadable))
      else if status == 404 || status == 410 then EndsWith(run, request, Response(status, false))
      else Refused(run, s, i, request, hops, left, status, reply.usageLimit)
  {
  }

  /** A failure of the transport, in each of them. */
  lemma TransportFails(s: Setting, i: nat, request: Request, hops: nat, left: nat, fatal: bool)
    requires s.judge in {JudgeStream, JudgeExchange, JudgeMultistatus}
    requires s.server(i, request) == TransportFailure(fatal)
    ensures
      var run := RunFrom(s, i, request, hops, left);
      if fatal then EndsWith(run, request, Failure(Connect)) else Repeats(run, s, i, request, hops, left)
  {
  }

  // ----- a redirect from the start

  /** In each loop, from the address that the caller names: the location is followed, and the reply from there ends the
      run, as one to a request of the caller's would. */
  lemma FirstRedirectIsFollowed(s: Setting, maxRetries: nat, status: nat, location: string, url: Url, auth: bool)
    requires s.judge in {JudgeStream, JudgeExchange, JudgeMultistatus}
    requires MovedTo(status) && s.net.join(s.origin, location) == Some(url)
    requires s.server(0, Request(s.origin, true)).Answer? && s.server(0, Request(s.origin, true)).status == status
    requires s.server(0, Request(s.origin, true)).location == Some(location)
    requires auth == (s.net.place(s.origin).Some? && s.net.place(url) == s.net.place(s.origin))
    requires s.judge(s.server(1, Request(url, auth))).Ends?
    ensures
      WholeRun(s, maxRetries)
      == Run([Request(s.origin, true), Request(url, auth)], s.judge(s.server(1, Request(url, auth))).result, 0)
  {
    var first, second := Request(s.origin, true), Request(url, auth);
    var reply := s.server(0, first);
    if s.judge == JudgeStream {
      StreamByStatus(s, 0, first, MAX_DAV_REDIRECTS, maxRetries, reply);
    } else if s.judge == JudgeExchange {
      ExchangeByStatus(s, 0, first, MAX_DAV_REDIRECTS, maxRetries, reply);
    } else {
      MultistatusByStatus(s, 0, first, MAX_DAV_REDIRECTS, maxRetries, reply);
    }
    hide JudgeStream, JudgeExchange, JudgeMultistatus;
    var rest := RunFrom(s, 1, second, MAX_DAV_REDIRECTS - 1, maxRetries);
    assert rest == Run([second], s.judge(s.server(1, second)).result, 0);
    assert [first] + [second] == [first, second];
  }

  /** Any other status from 300 to 399 ends the run with that status as its error. */
  lemma OtherRedirectsEnd(s: Setting, i: nat, request: Request, hops: nat, left: nat, reply: Reply)
    requires s.judge in {JudgeStream, JudgeExchange, JudgeMultistatus} && s.server(i, request) == reply
    requires reply.Answer? && 300 <= reply.status <= 399 && !MovedTo(reply.status)
    requires s.judge == JudgeMultistatus ==> reply.readable
    ensures EndsWith(RunFrom(s, i, request, hops, left), request, Failure(HttpStatus(reply.status)))
  {
  }

  /** Five redirects are followed: after a sixth there is no further request. */
  lemma SixRequestsAtMost(s: Setting, maxRetries: nat)
    requires s.judge in {JudgeStream, JudgeExchange, JudgeMultistatus}
    requires forall url :: s.net.join(url, "") == Some(url)
    ensures s.server == Worst(5) ==> |WholeRun(s, maxRetries).sent| == 6 + maxRetries
    ensures s.server == Worst(6) ==> WholeRun(s, 0).result == Failure(TooManyRedirects)
  {
    if s.server == Worst(5) {
      BoundIsReached(s, 0, Request(s.origin, true), 5, maxRetries);
    }
    if s.server == Worst(6) {
      AlwaysMoved(s, 0, Request(s.origin, true), MAX_DAV_REDIRECTS);
    }
  }

  lemma {:induction false} AlwaysMoved(s: Setting, i: nat, request: Request, hops: nat)
    requires s.judge in {JudgeStream, JudgeExchange, JudgeMultistatus} && s.server == Worst(6) && i + hops == 5
    requires forall url :: s.net.join(url, "") == Some(url)
    ensures RunFrom(s, i, request, hops, 0).result == Failure(TooManyRedirects)
    decreases hops
  {
    if hops > 0 {
      AlwaysMoved(s, i + 1, Follow(s.net, s.origin, request, "").value, hops - 1);
    }
  }
}
