/** What becomes of a request whose guest, or whose end, fails: from the traps of single
    calls to what the server is told and whether ServeHTTP panics. */
module Failures {
  import opened Abi
  import opened FeatureBits
  import opened GuestLog
  import opened Exchange
  import opened Gates
  import opened ResponseFlow
  import opened RequestGates

  /** An export fails if one of its calls to the host traps, or it traps by itself. */
  predicate Fails(x: State, guest: Script) {
    Calls(x, guest.calls).answer.Panic? || guest.ret.Trapped?
  }

  /** handle_request wants next if it comes back with any of the low 32 bits set. */
  predicate WantsNext(x: State, guest: Script) {
    !Fails(x, guest) && guest.ret.v % 0x1_0000_0000 != 0
  }

  /** The report of a failed request, with the headers of that moment. */
  function Report(message: bytes, headers: HeaderMap): seq<Sent> {
    [Status(500, headers), Data(message, headers)]
  }

  lemma ProceedsExactlyWhenWanted(x: State, env: Environment)
    ensures Proceeds(x, env) <==> WantsNext(x, env.request)
  {
  }

  /** The server gets a report if and only if handle_request or its closing failed, and
      behind it nothing before next runs. */
  lemma ReportedExactlyWhenFailed(x: State, env: Environment)
    ensures var y, failed := Calls(x, env.request.calls).x, Fails(x, env.request) || env.closeFails;
            && RequestPhase(x, env).0.sent == y.sent + (if failed then Report(env.message, y.responseHeaders) else [])
            && ErrorReport(x, env) == (if failed then Report(env.message, y.responseHeaders) else [])
  {
  }

  lemma ReleaseAdds(x: State)
    ensures x.sent <= Release(x).sent && (x.w.Plain? ==> Release(x) == x)
    ensures Release(x).guest == x.guest && Release(x).putBack == x.putBack
  {
  }

  /** A failed handle_request: the report follows what the guest had sent, the guest
      goes back, ServeHTTP returns, and neither the next handler nor handle_response
      has any part in it. */
  lemma FailedRequestEnds(x: State, env: Environment, next: seq<NextOp>, response: Script)
    requires Agreement(x) && x.guest.Some? && Fails(x, env.request)
    ensures var y, (end, panicked) := Calls(x, env.request.calls).x, ServeHttp(x, env);
            && !panicked && ServeHttp(x, env.(next := next, response := response)) == (end, false)
            && y.sent + Report(env.message, y.responseHeaders) <= end.sent
            && (y.w.Plain? ==> end.sent == y.sent + Report(env.message, y.responseHeaders))
            && end.guest == None && end.putBack == y.putBack + [x.guest.value]
  {
    var y, z := Calls(x, env.request.calls).x, RequestPhase(x, env).0;
    CallsKeepAgreement(x, env.request.calls);
    ProceedsExactlyWhenWanted(x, env);
    ReportedExactlyWhenFailed(x, env);
    assert z.w == y.w && z.guest == None && z.putBack == y.putBack + [x.guest.value];
    ReleaseAdds(z);
    var other := env.(next := next, response := response);
    assert RequestPhase(x, other) == RequestPhase(x, env);
  }

  /** ServeHTTP panics if and only if the guest wanted next and its handle_response
      fails. */
  lemma PanicsExactlyWhenResponseFails(x: State, env: Environment)
    requires Agreement(x) && x.guest.Some?
    ensures ServeHttp(x, env).1 <==> WantsNext(x, env.request) && Fails(ResponseStart(x, env), env.response)
  {
    ProceedsExactlyWhenWanted(x, env);
    if Proceeds(x, env) {
      ResponseStartAgrees(x, env);
    }
  }

  /** When nothing fails no error is sent, and ServeHTTP returns. */
  lemma NoFailureNoError(x: State, env: Environment)
    requires Agreement(x) && x.guest.Some? && !env.closeFails && !Fails(x, env.request)
    requires WantsNext(x, env.request) ==> !Fails(ResponseStart(x, env), env.response)
    ensures !ServeHttp(x, env).1 && ErrorReport(x, env) == []
    ensures RequestPhase(x, env).0.sent == Calls(x, env.request.calls).x.sent
  {
    PanicsExactlyWhenResponseFails(x, env);
    ReportedExactlyWhenFailed(x, env);
    var sent := Calls(x, env.request.calls).x.sent;
    assert sent + [] == sent;
  }

  // ---- Which calls trap ----

  /** A text, a region or a number the call cannot work with. */
  predicate BadArguments(c: Call) {
    match c
    case EnableFeatures(_) => false
    case GetStatusCode => false
    case SetStatusCode(_) => false
    case Observe(ok) => !ok
    case SetMethod(text) => text in {None, Some([])}
    case SetUri(text, parses) => text.None? || (text.value != [] && !parses)
    case SetHeader(kind, name, value) => name in {None, Some([])} || value.None? || kind == UnknownHeader
    case AddHeader(kind, name, value) => name in {None, Some([])} || value.None? || kind == UnknownHeader
    case RemoveHeader(kind, name) => name in {None, Some([])} || kind == UnknownHeader
    case ReadBody(kind, limit, inMemory, _) => kind == UnknownBody || limit == 0 || !inMemory
    case WriteBody(kind, data) => kind == UnknownBody || data.None?
  }

  /** What a call needs is missing once the next handler has run. */
  predicate TooLate(x: State, c: Call) {
    x.afterNext && match NeedOf(c)
                   case Nothing => false
                   case Feature(f) => !IsEnabled(x.features, f)
                   case BeforeNext => true
  }

  /** The status, or the first read of the body, of a response that is not buffered. */
  predicate NeedsBuffer(x: State, c: Call) {
    && !IsEnabled(x.features, BUFFER_RESPONSE)
    && (c.GetStatusCode? || (c.ReadBody? && c.body == ResponseBody && x.responseReader.None?))
  }

  /** A read of the request body that comes to the end of a stream that fails. */
  predicate FailingRead(x: State, c: Call) {
    && c.ReadBody? && c.body == RequestBody
    && var leaf := Leaf(x.bodies, if x.requestReader.Some? then x.requestReader.value.of else x.body);
       leaf < |x.bodies| && x.bodies[leaf].Stream? && x.bodies[leaf].fails && Ends(x.bodies[leaf], c.limit, c.chunking)
  }

  /** A call traps for one of these reasons, and for no other. */
  lemma TrapsExactlyWhen(x: State, c: Call)
    requires Agreement(x)
    ensures Step(x, c).answer.Panic? <==> TooLate(x, c) || BadArguments(c) || NeedsBuffer(x, c) || FailingRead(x, c)
  {
    match c
    case ReadBody(kind, limit, inMemory, chunking) =>
      if kind == RequestBody {
        assert Step(x, c) == OnReadRequest(x, limit, inMemory, chunking);
      } else if kind == ResponseBody {
        assert Step(x, c) == OnReadResponse(x, limit, inMemory);
      }
    case WriteBody(kind, data) =>
      if kind == RequestBody {
        assert Step(x, c) == OnWriteRequest(x, data);
      } else if kind == ResponseBody {
        assert Step(x, c) == OnWriteResponse(x, data);
      }
    case _ =>
  }
}
