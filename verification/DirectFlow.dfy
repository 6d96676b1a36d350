/** The response of a request that is not buffered: the server is told everything at
    once, the guest's part before the next handler's, and nothing after it. */
module DirectFlow {
  import opened Abi
  import opened FeatureBits
  import opened GuestLog
  import opened Exchange
  import opened Gates
  import opened ResponseFlow
  import opened RequestGates
  import opened Transparency
  import opened Failures

  predicate NeverAsks(calls: seq<Call>) {
    forall c :: c in calls ==> !AsksToBufferResponse(c)
  }

  /** What one call says to the server, with the headers there are at the time. */
  function Says(c: Call, headers: HeaderMap): seq<Sent> {
    match c
    case WriteBody(kind, data) => if kind == ResponseBody && data.Some? then [Data(data.value, headers)] else []
    case SetStatusCode(code) => [Status(code, headers)]
    case _ => []
  }

  /** What the calls say, in order, up to the first trap. */
  function Said(x: State, calls: seq<Call>): seq<Sent>
    decreases |calls|
  {
    if calls == [] then []
    else
      var r := Step(x, calls[0]);
      Says(calls[0], x.responseHeaders) + (if r.answer.Panic? then [] else Said(r.x, calls[1..]))
  }

  /** Before the next handler, without buffering. */
  ghost predicate GoesDirect(x: State) {
    Unbuffering(x) && !x.afterNext && x.responseWriter != Some(Buffered)
  }

  lemma DirectWrite(x: State, data: Option<bytes>)
    requires GoesDirect(x)
    ensures var y := OnWriteResponse(x, data).x;
            && y.w == x.w && y.responseWriter == Some(Direct)
            && y.sent == x.sent + Says(WriteBody(ResponseBody, data), x.responseHeaders)
  {
    var y := OpenResponseWriter(x);
    if x.responseWriter.Some? {
      assert x.responseWriter.value.Direct?;
    }
    assert y == x.(responseWriter := Some(Direct));
    assert OnWriteResponse(x, data) == ToResponseWriter(y, data);
    assert x.sent + [] == x.sent;
  }

  lemma DirectStep(x: State, c: Call)
    requires GoesDirect(x) && !AsksToBufferResponse(c)
    ensures GoesDirect(Step(x, c).x) && Step(x, c).x.sent == x.sent + Says(c, x.responseHeaders)
  {
    StepKeepsAgreement(x, c);
    assert x.sent + [] == x.sent;
    match c
    case EnableFeatures(f) => EnableFrame(x, f);
    case ReadBody(_, _, _, _) => ReadFrame(x, c);
    case WriteBody(kind, data) =>
      if kind == ResponseBody {
        ResponseWriteFrame(x, c);
        DirectWrite(x, data);
      } else {
        RequestWriteFrame(x, c);
      }
    case _ =>
      if ChangesHead(c) {
        HeadFrame(x, c);
      } else {
        StatusFrame(x, c);
      }
  }

  /** Every status set and every write reaches the server as it is made. */
  lemma {:induction false} SaysAtOnce(x: State, calls: seq<Call>)
    requires GoesDirect(x) && NeverAsks(calls)
    ensures GoesDirect(Calls(x, calls).x) && Calls(x, calls).x.sent == x.sent + Said(x, calls)
    decreases |calls|
  {
    if calls == [] {
      assert x.sent + [] == x.sent;
    } else {
      var c, r := calls[0], Step(x, calls[0]);
      DirectStep(x, c);
      if r.answer.Panic? {
        assert Says(c, x.responseHeaders) + [] == Says(c, x.responseHeaders);
      } else {
        SaysAtOnce(r.x, calls[1..]);
        Grouped(x.sent, Says(c, x.responseHeaders), Said(r.x, calls[1..]));
      }
    }
  }

  lemma Grouped(a: seq<Sent>, b: seq<Sent>, c: seq<Sent>)
    ensures a + b + c == a + (b + c)
  {
  }

  /** The whole request: the server is told what handle_request says, the report of its
      failure if there is one, and what the next handler says if it runs; whatever
      handle_response tries, it adds nothing. */
  lemma SentIsWhatWasSaid(x: State, env: Environment)
    requires GoesDirect(x) && x.guest.Some? && NeverAsks(env.request.calls) && NeverAsks(env.response.calls)
    ensures var h := Calls(x, env.request.calls).x.responseHeaders;
            ServeHttp(x, env).0.sent
            == x.sent + Said(x, env.request.calls) + ErrorReport(x, env)
               + if Proceeds(x, env) then Unbuffered(h, env.next) else []
  {
    SaysAtOnce(x, env.request.calls);
    ReportedExactlyWhenFailed(x, env);
    SaidByTheRequest(x, env);
    var z := RequestPhase(x, env).0;
    if Proceeds(x, env) {
      NextSays(x, env);
      ResponseStartAgrees(x, env);
      ServeHttpEndsIn(x, env);
    } else {
      assert z.sent + [] == z.sent;
    }
  }

  lemma SaidByTheRequest(x: State, env: Environment)
    ensures var z, y := RequestPhase(x, env).0, Calls(x, env.request.calls).x;
            && z.w == y.w && z.features == y.features && z.hostFeatures == y.hostFeatures
            && z.responseHeaders == y.responseHeaders
  {
    var z, y := HandleRequest(x, env.request).0, Calls(x, env.request.calls).x;
    assert z == if CtxNext(HandleRequest(x, env.request).1) != 0 then CloseRequest(y) else Close(y);
  }

  lemma NextSays(x: State, env: Environment)
    requires GoesDirect(x) && NeverAsks(env.request.calls) && Proceeds(x, env)
    ensures var y, u := Calls(x, env.request.calls).x, ResponseStart(x, env);
            && Unbuffering(u) && u.sent == RequestPhase(x, env).0.sent + Unbuffered(y.responseHeaders, env.next)
  {
    SaysAtOnce(x, env.request.calls);
    SaidByTheRequest(x, env);
    var z := RequestPhase(x, env).0;
    ResetFrame(z);
    PlainNext(ResetBody(z), env.next);
  }

  // ---- Asking too late ----

  /** After the next handler, with no writer left over that writes through. */
  ghost predicate Muted(x: State) {
    Agreement(x) && x.afterNext && x.responseWriter != Some(Direct)
  }

  lemma MutedWrite(x: State, data: Option<bytes>)
    requires Muted(x)
    ensures var y := OnWriteResponse(x, data).x; y.sent == x.sent && y.responseWriter != Some(Direct)
  {
    if BeforeNextOrFeature(x, BUFFER_RESPONSE) {
      if x.responseWriter.Some? {
        assert x.responseWriter.value.Buffered?;
      }
      assert OpenResponseWriter(x).responseWriter == Some(Buffered) && OpenResponseWriter(x).w.Buffering?;
    }
  }

  lemma MutedStep(x: State, c: Call)
    requires Muted(x)
    ensures Muted(Step(x, c).x) && Step(x, c).x.sent == x.sent
  {
    StepKeepsAgreement(x, c);
    match c
    case EnableFeatures(f) => EnableFrame(x, f);
    case ReadBody(_, _, _, _) => ReadFrame(x, c);
    case WriteBody(kind, data) =>
      if kind == ResponseBody {
        ResponseWriteFrame(x, c);
        MutedWrite(x, data);
      } else {
        RequestWriteFrame(x, c);
      }
    case _ =>
      if ChangesHead(c) {
        HeadFrame(x, c);
      } else {
        StatusFrame(x, c);
      }
  }

  lemma {:induction false} StaysMuted(x: State, calls: seq<Call>)
    requires Muted(x)
    ensures Calls(x, calls).x.sent == x.sent
    decreases |calls|
  {
    if calls != [] {
      MutedStep(x, calls[0]);
      StaysMuted(Step(x, calls[0]).x, calls[1..]);
    }
  }

  const ASKS_LATE := [EnableFeatures({BUFFER_RESPONSE}), WriteBody(ResponseBody, Some([97]))]

  lemma LateWriteIsSent(x: State)
    requires Unbuffering(x) && x.afterNext && x.responseWriter == Some(Direct)
    ensures Calls(x, ASKS_LATE).x.sent == x.sent + [Data([97], x.responseHeaders)]
  {
    var y := Step(x, ASKS_LATE[0]).x;
    EnableFrame(x, {BUFFER_RESPONSE});
    assert ASKS_LATE[1..] == [ASKS_LATE[1]] && ASKS_LATE[1..][1..] == [];
    assert Calls(x, ASKS_LATE) == Calls(y, ASKS_LATE[1..]);
    var z := Step(y, ASKS_LATE[1]);
    assert z == OnWriteResponse(y, Some([97])) == ToResponseWriter(y, Some([97]));
    assert Calls(y, ASKS_LATE[1..]) == Calls(z.x, []);
  }

  predicate WritesResponse(c: Call) {
    c.WriteBody? && c.body == ResponseBody
  }

  /** The writer is there once the guest has asked to write. */
  lemma WriterStep(x: State, c: Call)
    requires GoesDirect(x)
    ensures Step(x, c).x.responseWriter.Some? <==> x.responseWriter.Some? || WritesResponse(c)
  {
    match c
    case EnableFeatures(f) => EnableFrame(x, f);
    case ReadBody(_, _, _, _) => ReadFrame(x, c);
    case WriteBody(kind, data) =>
      if kind == ResponseBody {
        DirectWrite(x, data);
      } else {
        RequestWriteFrame(x, c);
      }
    case _ =>
      if ChangesHead(c) {
        HeadFrame(x, c);
      } else {
        StatusFrame(x, c);
      }
  }

  lemma {:induction false} WriterExactlyWhenWritten(x: State, calls: seq<Call>)
    requires GoesDirect(x) && NeverAsks(calls) && !Calls(x, calls).answer.Panic?
    ensures Calls(x, calls).x.responseWriter.Some?
            <==> x.responseWriter.Some? || exists c :: c in calls && WritesResponse(c)
    decreases |calls|
  {
    if calls != [] {
      DirectStep(x, calls[0]);
      WriterStep(x, calls[0]);
      WriterExactlyWhenWritten(Step(x, calls[0]).x, calls[1..]);
      assert forall c :: c in calls <==> c == calls[0] || c in calls[1..];
    }
  }

  lemma LateResponse(x: State, env: Environment, script: Script)
    requires GoesDirect(x) && x.guest.Some? && NeverAsks(env.request.calls) && Proceeds(x, env)
    ensures ServeHttp(x, env.(response := script)).0.sent == Calls(ResponseStart(x, env), script.calls).x.sent
  {
    var env' := env.(response := script);
    assert RequestPhase(x, env') == RequestPhase(x, env) && BeforeResponse(x, env') == BeforeResponse(x, env);
    SaysAtOnce(x, env.request.calls);
    SaidByTheRequest(x, env);
    ResponseStartAgrees(x, env);
  }

  /** The documentation says that features asked for after handle_request have no effect.
      As to what a client is sent that is so, whatever a guest may do in handle_response,
      if and only if it had not written the response in handle_request: the writer it
      then has goes past the buffer. */
  lemma LateAskHasNoEffectIff(x: State, env: Environment)
    requires GoesDirect(x) && x.guest.Some? && x.responseWriter.None?
    requires NeverAsks(env.request.calls) && Proceeds(x, env)
    ensures (forall script :: ServeHttp(x, env.(response := script)).0.sent == ResponseStart(x, env).sent)
            <==> forall c :: c in env.request.calls ==> !WritesResponse(c)
  {
    var u := ResponseStart(x, env);
    NextSays(x, env);
    KeepsWriter(x, env);
    WriterExactlyWhenWritten(x, env.request.calls);
    if u.responseWriter.None? {
      forall script ensures ServeHttp(x, env.(response := script)).0.sent == u.sent {
        LateResponse(x, env, script);
        StaysMuted(u, script.calls);
      }
    } else {
      assert u.responseWriter.value.Direct?;
      var script := Script(ASKS_LATE, Returned(0));
      LateResponse(x, env, script);
      LateWriteIsSent(u);
    }
  }

  lemma {:induction false} NextKeepsWriter(x: State, ops: seq<NextOp>)
    ensures RunNext(x, ops).responseWriter == x.responseWriter
    decreases |ops|
  {
    if ops != [] {
      NextKeepsWriter(DoNext(x, ops[0]), ops[1..]);
    }
  }

  lemma KeepsWriter(x: State, env: Environment)
    requires GoesDirect(x) && NeverAsks(env.request.calls) && Proceeds(x, env)
    ensures !Calls(x, env.request.calls).answer.Panic?
    ensures ResponseStart(x, env).responseWriter == Calls(x, env.request.calls).x.responseWriter
    ensures ResponseStart(x, env).responseWriter != Some(Buffered)
  {
    SaysAtOnce(x, env.request.calls);
    var z := RequestPhase(x, env).0;
    assert z.responseWriter == Calls(x, env.request.calls).x.responseWriter;
    ResetFrame(z);
    NextKeepsWriter(ResetBody(z), env.next);
  }
}
