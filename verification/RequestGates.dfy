/** The gates over a whole request, from the middleware's features to the end of
    handle_response. */
module RequestGates {
  import opened Abi
  import opened FeatureBits
  import opened Exchange
  import opened Gates
  import opened ResponseFlow

  /** The two layers still agree when handle_response starts. */
  lemma ResponseStartAgrees(x: State, env: Environment)
    requires Agreement(x) && Proceeds(x, env)
    ensures Agreement(ResponseStart(x, env)) && ResponseStart(x, env).guest == x.guest
  {
    CallsKeepAgreement(x, env.request.calls);
    var z := RequestPhase(x, env).0;
    assert Agreement(z) && z.guest == x.guest;
    ResetFrame(z);
    NextKeepsAgreement(ResetBody(z), env.next);
  }

  lemma ServeHttpEndsIn(x: State, env: Environment)
    requires Agreement(x) && Proceeds(x, env)
    ensures var u, end := ResponseStart(x, env), ServeHttp(x, env).0;
            && RequestHead(end) == RequestHead(u)
            && (!IsEnabled(u.features, BUFFER_RESPONSE)
                && (forall c :: c in env.response.calls ==> !AsksToBufferResponse(c)) ==>
                  ResponseSide(end) == ResponseSide(u))
  {
    ResponseStartAgrees(x, env);
    var u := ResponseStart(x, env);
    FrozenAfterNext(u, env.response.calls);
    CallsKeepAgreement(u, env.response.calls);
    var v := HandleResponse(BeforeResponse(x, env), env.response).0;
    assert RequestHead(v) == RequestHead(u);
    PlainUntilNext(x, env);
  }

  /** A release is armed only if the response is buffered when the next handler runs. */
  lemma PlainUntilNext(x: State, env: Environment)
    requires Proceeds(x, env)
    ensures RequestPhase(x, env).0.w.Buffering? <==> ResponseStart(x, env).w.Buffering?
  {
    var z := RequestPhase(x, env).0;
    ResetFrame(z);
    NextKeepsKind(ResetBody(z), env.next);
  }

  lemma {:induction false} NextKeepsKind(x: State, ops: seq<NextOp>)
    ensures RunNext(x, ops).w.Buffering? <==> x.w.Buffering?
    decreases |ops|
  {
    if ops != [] {
      NextKeepsKind(DoNext(x, ops[0]), ops[1..]);
    }
  }

  /** From the arrival of a request with any features, over any guest, any next handler
      and any calls in handle_response: a response body read fails at the gate if and
      only if the feature is off, and otherwise reaches a buffering writer. */
  lemma ReadsReachABuffer(features: Features, guest: nat, body: Body, verb: bytes, uri: bytes, headers: HeaderMap,
                          env: Environment, k: nat)
    requires Proceeds(Begin(features, guest, body, verb, uri, headers), env)
    requires k < |env.response.calls| && env.response.calls[k].ReadBody? && env.response.calls[k].body == ResponseBody
    ensures var u := ResponseStart(Begin(features, guest, body, verb, uri, headers), env);
            var before := Calls(u, env.response.calls[..k]).x;
            var answer := Step(before, env.response.calls[k]).answer;
            && (answer == Panic(Gate) <==> !IsEnabled(before.features, BUFFER_RESPONSE))
            && (answer != Panic(Gate) ==> before.w.Buffering? && answer != Panic(NotBuffering))
  {
    BeginAgrees(features, guest, body, verb, uri, headers);
    ResponseStartAgrees(Begin(features, guest, body, verb, uri, headers), env);
    var u := ResponseStart(Begin(features, guest, body, verb, uri, headers), env);
    CallsKeepAgreement(u, env.response.calls[..k]);
    ReadAfterNextIsBuffered(Calls(u, env.response.calls[..k]).x, env.response.calls[k]);
  }

  /** And from there to the end of ServeHTTP the request head stays as the next handler
      found it, and so does the response, unless the feature is on or asked for. */
  lemma FrozenOnceNextRan(features: Features, guest: nat, body: Body, verb: bytes, uri: bytes, headers: HeaderMap,
                          env: Environment)
    requires Proceeds(Begin(features, guest, body, verb, uri, headers), env)
    ensures var x := Begin(features, guest, body, verb, uri, headers);
            var u, end := ResponseStart(x, env), ServeHttp(x, env).0;
            && RequestHead(end) == RequestHead(u)
            && (!IsEnabled(u.features, BUFFER_RESPONSE)
                && (forall c :: c in env.response.calls ==> !AsksToBufferResponse(c)) ==>
                  ResponseSide(end) == ResponseSide(u))
  {
    BeginAgrees(features, guest, body, verb, uri, headers);
    ServeHttpEndsIn(Begin(features, guest, body, verb, uri, headers), env);
  }
}
