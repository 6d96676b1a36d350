/** A guest that leaves the response alone: when the client is sent the same response
    whether it is buffered or not. Only what the server is told is compared: whether
    ServeHTTP returns or panics afterwards is module Exchange's second result. */
module Transparency {
  import opened Abi
  import opened FeatureBits
  import opened GuestLog
  import opened Exchange
  import opened Gates
  import opened ResponseFlow

  /** net/http: any status but 1xx, or 101, ends the header. */
  predicate Final(code: uint32) {
    code == 101 || code >= 200
  }

  datatype Response = Response(status: uint32, headers: HeaderMap, body: bytes)

  /** What the client receives: the first final status fixes status and headers,
      as does the first data, with 200; if nothing does, the end of the request. */
  function Received(sent: seq<Sent>, headersAtEnd: HeaderMap): Response {
    if sent == [] then Response(200, headersAtEnd, [])
    else match sent[0]
         case Status(code, h) =>
           if Final(code) then Response(code, h, AllData(sent)) else Received(sent[1..], headersAtEnd)
         case Data(_, h) => Response(200, h, AllData(sent))
  }

  function AllData(sent: seq<Sent>): bytes {
    if sent == [] then []
    else (if sent[0].Data? then sent[0].data else []) + AllData(sent[1..])
  }

  /** What the underlying writer is told when the next handler runs on it directly. */
  function Unbuffered(headers: HeaderMap, ops: seq<NextOp>): seq<Sent>
    decreases |ops|
  {
    if ops == [] then []
    else match ops[0]
         case NextStatus(code) => [Status(code, headers)] + Unbuffered(headers, ops[1..])
         case NextWrite(d) => [Data(d, headers)] + Unbuffered(headers, ops[1..])
         case NextHeaders(h) => Unbuffered(h, ops[1..])
  }

  function HeadersAfter(headers: HeaderMap, ops: seq<NextOp>): HeaderMap
    decreases |ops|
  {
    if ops == [] then headers
    else HeadersAfter(if ops[0].NextHeaders? then ops[0].headers else headers, ops[1..])
  }

  /** Informational statuses and header changes first, then at most one final
      status, then only data. */
  predicate Conventional(ops: seq<NextOp>, committed: bool) {
    ops != [] ==>
      match ops[0]
      case NextStatus(code) => code >= 100 && !committed && Conventional(ops[1..], Final(code))
      case NextWrite(_) => Conventional(ops[1..], true)
      case NextHeaders(_) => !committed && Conventional(ops[1..], false)
  }

  /** The last status of a run of the next handler, or the one before. */
  function NextStatusAfter(status: uint32, ops: seq<NextOp>): uint32
    decreases |ops|
  {
    if ops == [] then status
    else NextStatusAfter(if ops[0].NextStatus? then ops[0].code else status, ops[1..])
  }

  function NextData(ops: seq<NextOp>): bytes {
    if ops == [] then []
    else (if ops[0].NextWrite? then ops[0].data else []) + NextData(ops[1..])
  }

  /** net/http refuses any status below 100. */
  predicate ValidCodes(ops: seq<NextOp>) {
    forall i :: 0 <= i < |ops| && ops[i].NextStatus? ==> ops[i].code >= 100
  }

  /** The status and headers in force at the next handler's first final status or first
      write, or at its end if it does neither. */
  function Committed(headers: HeaderMap, ops: seq<NextOp>): (uint32, HeaderMap)
    decreases |ops|
  {
    if ops == [] then (200, headers)
    else match ops[0]
         case NextStatus(code) => if Final(code) then (code, headers) else Committed(headers, ops[1..])
         case NextWrite(_) => (200, headers)
         case NextHeaders(h) => Committed(h, ops[1..])
  }

  /** The last status, if it is final, and the headers there are in the end. */
  function InTheEnd(headers: HeaderMap, ops: seq<NextOp>): (uint32, HeaderMap) {
    var code := NextStatusAfter(0, ops);
    (if Final(code) then code else 200, HeadersAfter(headers, ops))
  }

  lemma {:induction false} UnbufferedData(headers: HeaderMap, ops: seq<NextOp>)
    ensures AllData(Unbuffered(headers, ops)) == NextData(ops)
    decreases |ops|
  {
    if ops != [] {
      var sent := Unbuffered(headers, ops);
      UnbufferedData(if ops[0].NextHeaders? then ops[0].headers else headers, ops[1..]);
      assert !ops[0].NextHeaders? ==> sent[1..] == Unbuffered(headers, ops[1..]);
    }
  }

  /** Without buffering the client receives what was in force first, and all data. */
  lemma {:induction false} UnbufferedReceives(headers: HeaderMap, ops: seq<NextOp>)
    ensures Received(Unbuffered(headers, ops), HeadersAfter(headers, ops))
            == Response(Committed(headers, ops).0, Committed(headers, ops).1, NextData(ops))
    decreases |ops|
  {
    if ops != [] {
      var sent := Unbuffered(headers, ops);
      UnbufferedData(headers, ops);
      UnbufferedReceives(if ops[0].NextHeaders? then ops[0].headers else headers, ops[1..]);
      assert !ops[0].NextHeaders? ==> sent[1..] == Unbuffered(headers, ops[1..]);
    }
  }

  lemma {:induction false} CommittedOnlyWrites(headers: HeaderMap, status: uint32, ops: seq<NextOp>)
    requires Conventional(ops, true)
    ensures NextStatusAfter(status, ops) == status && HeadersAfter(headers, ops) == headers && ValidCodes(ops)
    decreases |ops|
  {
    if ops != [] {
      CommittedOnlyWrites(headers, status, ops[1..]);
      assert ops == [ops[0]] + ops[1..];
    }
  }

  /** A conventional next handler changes neither status nor headers once they are in force. */
  lemma {:induction false} ConventionalSettles(headers: HeaderMap, ops: seq<NextOp>, status: uint32)
    requires Conventional(ops, false) && !Final(status)
    ensures var code := NextStatusAfter(status, ops);
            Committed(headers, ops) == (if Final(code) then code else 200, HeadersAfter(headers, ops))
    ensures ValidCodes(ops)
    decreases |ops|
  {
    if ops != [] {
      assert ops == [ops[0]] + ops[1..];
      match ops[0]
      case NextHeaders(h) => ConventionalSettles(h, ops[1..], status);
      case NextWrite(_) => CommittedOnlyWrites(headers, status, ops[1..]);
      case NextStatus(code) =>
        if Final(code) {
          CommittedOnlyWrites(headers, code, ops[1..]);
        } else {
          ConventionalSettles(headers, ops[1..], code);
        }
    }
  }

  /** Releasing a status and body sends them whole. */
  lemma ReleasedReceives(status: uint32, body: bytes, headers: HeaderMap)
    requires status == 0 || status >= 100
    ensures Received(Released(status, body, headers), headers)
            == Response(if Final(status) then status else 200, headers, body)
  {
    var data: seq<Sent> := if body != [] then [Data(body, headers)] else [];
    assert data != [] ==> data[1..] == [];
    assert AllData(data) == body;
    assert Received(data, headers) == Response(200, headers, body);
    var sent := Released(status, body, headers);
    if status == 0 {
      assert sent == data;
    } else {
      assert sent == [Status(status, headers)] + data;
      assert sent[1..] == data;
    }
  }

  /** Calls that do nothing to the response. */
  predicate LeavesResponse(c: Call) {
    match c
    case SetHeader(kind, _, _) => kind == RequestHeader
    case AddHeader(kind, _, _) => kind == RequestHeader
    case RemoveHeader(kind, _) => kind == RequestHeader
    case WriteBody(kind, _) => kind != ResponseBody
    case SetStatusCode(_) => false
    case _ => true
  }

  lemma {:induction false} LeavesResponseCalls(x: State, calls: seq<Call>)
    requires forall c :: c in calls ==> LeavesResponse(c)
    ensures CallDeeds(x, calls) == [] && Calls(x, calls).x.responseHeaders == x.responseHeaders
    decreases |calls|
  {
    if calls != [] {
      var c := calls[0];
      assert c in calls;
      match c {
        case EnableFeatures(f) => EnableFrame(x, f);
        case ReadBody(_, _, _, _) => ReadFrame(x, c);
        case WriteBody(_, _) => RequestWriteFrame(x, c);
        case _ =>
      }
      assert Step(x, c).x.responseHeaders == x.responseHeaders;
      assert forall d :: d in calls[1..] ==> d in calls;
      LeavesResponseCalls(Step(x, c).x, calls[1..]);
      assert DeedsOf(c) == [];
    }
  }

  lemma {:induction false} NextDeedsAmount(ops: seq<NextOp>)
    ensures Joined(NextDeeds(ops)) == NextData(ops)
  {
    if ops != [] {
      NextDeedsAmount(ops[1..]);
      var head := DeedsOfNext(ops[0]);
      if head == [] {
        assert head + NextDeeds(ops[1..]) == NextDeeds(ops[1..]);
      } else {
        assert (head + NextDeeds(ops[1..]))[1..] == NextDeeds(ops[1..]);
      }
    }
  }

  lemma {:induction false} NextStatusIsLast(x: State, ops: seq<NextOp>)
    requires x.w.Buffering?
    ensures RunNext(x, ops).w.Buffering?
    ensures RunNext(x, ops).w.status == NextStatusAfter(x.w.status, ops)
    ensures RunNext(x, ops).responseHeaders == HeadersAfter(x.responseHeaders, ops)
    decreases |ops|
  {
    if ops != [] {
      NextStatusIsLast(DoNext(x, ops[0]), ops[1..]);
    }
  }

  lemma {:induction false} StatusInForce(ops: seq<NextOp>, status: uint32)
    requires ValidCodes(ops) && (status == 0 || status >= 100)
    ensures NextStatusAfter(status, ops) == 0 || NextStatusAfter(status, ops) >= 100
    decreases |ops|
  {
    if ops != [] {
      StatusInForce(ops[1..], if ops[0].NextStatus? then ops[0].code else status);
    }
  }

  /** With buffering the client receives what was in force last, and all data. */
  lemma BufferedReceives(x: State, env: Environment)
    requires BufferedFromStart(x) && !env.closeFails
    requires forall c :: c in env.request.calls ==> LeavesResponse(c)
    requires forall c :: c in env.response.calls ==> LeavesResponse(c)
    requires Proceeds(x, env) && ValidCodes(env.next)
    ensures var end, last := ServeHttp(x, env).0, InTheEnd(x.responseHeaders, env.next);
            Received(end.sent, end.responseHeaders) == Response(last.0, last.1, NextData(env.next))
  {
    TransparentHeaders(x, env);
    var deeds, h := NextDeeds(env.next), HeadersAfter(x.responseHeaders, env.next);
    NextDeedsAmount(env.next);
    NextIsNotGuest(env.next);
    NextStatusLast(env.next);
    StatusInForce(env.next, 0);
    ReleasedIsWhatWasWritten(x, env);
    ServeHttpReleases(x, env);
    assert ServeHttp(x, env).0.sent == Released(LastStatus(deeds), NextData(env.next), h);
    ReleasedReceives(LastStatus(deeds), NextData(env.next), h);
  }

  /** Buffering is invisible: under a guest that lets the request through and
      leaves the response alone, the client of a conventional next handler is sent
      what it would have been sent by that handler alone. */
  lemma BufferingIsTransparent(x: State, env: Environment)
    requires BufferedFromStart(x) && !env.closeFails
    requires forall c :: c in env.request.calls ==> LeavesResponse(c)
    requires forall c :: c in env.response.calls ==> LeavesResponse(c)
    requires Proceeds(x, env)
    requires Conventional(env.next, false)
    ensures var end := ServeHttp(x, env).0;
            Received(end.sent, end.responseHeaders)
            == Received(Unbuffered(x.responseHeaders, env.next), HeadersAfter(x.responseHeaders, env.next))
  {
    ConventionalSettles(x.responseHeaders, env.next, 0);
    UnbufferedReceives(x.responseHeaders, env.next);
    BufferedReceives(x, env);
  }

  lemma TransparentRequest(x: State, env: Environment)
    requires BufferedFromStart(x) && !env.closeFails && Proceeds(x, env)
    requires forall c :: c in env.request.calls ==> LeavesResponse(c)
    ensures CallDeeds(x, env.request.calls) == [] && ErrorReport(x, env) == []
    ensures ResponseStart(x, env).responseHeaders == HeadersAfter(x.responseHeaders, env.next)
  {
    LeavesResponseCalls(x, env.request.calls);
    RequestPhaseTracks(x, env);
    var z := RequestPhase(x, env).0;
    ResetFrame(z);
    NextStatusIsLast(ResetBody(z), env.next);
  }

  /** Such a guest adds no deeds, and the next handler alone decides the headers. */
  lemma TransparentHeaders(x: State, env: Environment)
    requires BufferedFromStart(x) && !env.closeFails && Proceeds(x, env)
    requires forall c :: c in env.request.calls ==> LeavesResponse(c)
    requires forall c :: c in env.response.calls ==> LeavesResponse(c)
    ensures AllDeeds(x, env) == NextDeeds(env.next) && ErrorReport(x, env) == []
    ensures Calls(ResponseStart(x, env), env.response.calls).x.responseHeaders
            == HeadersAfter(x.responseHeaders, env.next)
  {
    TransparentRequest(x, env);
    LeavesResponseCalls(ResponseStart(x, env), env.response.calls);
    assert [] + NextDeeds(env.next) + [] == NextDeeds(env.next);
  }

  lemma NextStatusLast(ops: seq<NextOp>)
    ensures LastStatus(NextDeeds(ops)) == NextStatusAfter(0, ops)
  {
    AmountOfAll(NextDeeds(ops));
    NextStatusFold(NOTHING, ops);
  }

  lemma {:induction false} NextStatusFold(a: Amount, ops: seq<NextOp>)
    ensures AddAll(a, NextDeeds(ops)).status == NextStatusAfter(a.status, ops)
    decreases |ops|
  {
    if ops != [] {
      var deeds := DeedsOfNext(ops[0]);
      AddAllAppend(a, deeds, NextDeeds(ops[1..]));
      if deeds != [] {
        AddOne(a, deeds[0]);
        assert deeds == [deeds[0]];
      }
      NextStatusFold(AddAll(a, deeds), ops[1..]);
    }
  }

  // ---- The unbuffered run ----

  /** Response buffering is off. */
  ghost predicate Unbuffering(x: State) {
    Agreement(x) && !IsEnabled(x.features, BUFFER_RESPONSE)
  }

  predicate PassesThrough(calls: seq<Call>) {
    forall c :: c in calls ==> LeavesResponse(c) && !AsksToBufferResponse(c)
  }

  lemma PlainStep(x: State, c: Call)
    requires Unbuffering(x) && LeavesResponse(c) && !AsksToBufferResponse(c)
    ensures var y := Step(x, c).x; Unbuffering(y) && y.sent == x.sent && y.responseHeaders == x.responseHeaders
  {
    StepKeepsAgreement(x, c);
    match c
    case EnableFeatures(f) => EnableFrame(x, f);
    case ReadBody(_, _, _, _) => ReadFrame(x, c);
    case WriteBody(_, _) => RequestWriteFrame(x, c);
    case _ =>
      if ChangesHead(c) {
        HeadFrame(x, c);
      } else {
        StatusFrame(x, c);
      }
  }

  lemma {:induction false} PlainCalls(x: State, calls: seq<Call>)
    requires Unbuffering(x) && PassesThrough(calls)
    ensures var y := Calls(x, calls).x; Unbuffering(y) && y.sent == x.sent && y.responseHeaders == x.responseHeaders
    decreases |calls|
  {
    if calls != [] {
      PlainStep(x, calls[0]);
      if !Step(x, calls[0]).answer.Panic? {
        PlainCalls(Step(x, calls[0]).x, calls[1..]);
      }
    }
  }

  lemma {:induction false} PlainNext(x: State, ops: seq<NextOp>)
    requires Unbuffering(x)
    ensures var y := RunNext(x, ops);
            && Unbuffering(y) && y.sent == x.sent + Unbuffered(x.responseHeaders, ops)
            && y.responseHeaders == HeadersAfter(x.responseHeaders, ops)
    decreases |ops|
  {
    if ops != [] {
      PlainNext(DoNext(x, ops[0]), ops[1..]);
    }
  }

  /** What the server is told without buffering is what the next handler says. */
  lemma UnbufferedRun(x: State, env: Environment)
    requires Unbuffering(x) && !env.closeFails && x.sent == [] && Proceeds(x, env)
    requires PassesThrough(env.request.calls) && PassesThrough(env.response.calls)
    ensures var end := ServeHttp(x, env).0;
            && end.sent == Unbuffered(x.responseHeaders, env.next)
            && end.responseHeaders == HeadersAfter(x.responseHeaders, env.next)
  {
    PlainUntilResponse(x, env);
    PlainCalls(ResponseStart(x, env), env.response.calls);
  }

  lemma PlainUntilResponse(x: State, env: Environment)
    requires Unbuffering(x) && !env.closeFails && x.sent == [] && Proceeds(x, env) && PassesThrough(env.request.calls)
    ensures RequestPhase(x, env).0.w.Plain?
    ensures var u := ResponseStart(x, env);
            && Unbuffering(u) && u.sent == Unbuffered(x.responseHeaders, env.next)
            && u.responseHeaders == HeadersAfter(x.responseHeaders, env.next)
  {
    PlainCalls(x, env.request.calls);
    var z := RequestPhase(x, env).0;
    assert Unbuffering(z) && z.sent == [] && z.responseHeaders == x.responseHeaders;
    ResetFrame(z);
    PlainNext(ResetBody(z), env.next);
    assert [] + Unbuffered(x.responseHeaders, env.next) == Unbuffered(x.responseHeaders, env.next);
  }

  /** The two runs side by side: the client is sent the same response if and only if the
      status and headers in force at the next handler's first final status or first write
      are those it leaves in the end. */
  lemma BufferedOrNotIff(x: State, y: State, env: Environment)
    requires BufferedFromStart(x) && Unbuffering(y) && y.sent == [] && y.responseHeaders == x.responseHeaders
    requires !env.closeFails && Proceeds(x, env) && Proceeds(y, env) && ValidCodes(env.next)
    requires PassesThrough(env.request.calls) && PassesThrough(env.response.calls)
    ensures var buffered, direct := ServeHttp(x, env).0, ServeHttp(y, env).0;
            Received(buffered.sent, buffered.responseHeaders) == Received(direct.sent, direct.responseHeaders)
            <==> Committed(x.responseHeaders, env.next) == InTheEnd(x.responseHeaders, env.next)
  {
    BufferedReceives(x, env);
    UnbufferedRun(y, env);
    UnbufferedReceives(y.responseHeaders, env.next);
  }

  /** So it is for every conventional next handler. */
  lemma BufferedOrNot(x: State, y: State, env: Environment)
    requires BufferedFromStart(x) && Unbuffering(y) && y.sent == [] && y.responseHeaders == x.responseHeaders
    requires !env.closeFails && Proceeds(x, env) && Proceeds(y, env) && Conventional(env.next, false)
    requires PassesThrough(env.request.calls) && PassesThrough(env.response.calls)
    ensures var buffered, direct := ServeHttp(x, env).0, ServeHttp(y, env).0;
            Received(buffered.sent, buffered.responseHeaders) == Received(direct.sent, direct.responseHeaders)
  {
    ConventionalSettles(x.responseHeaders, env.next, 0);
    BufferedOrNotIff(x, y, env);
  }

  /** A next handler that writes "h" before it sets 404, between exports that do nothing. */
  const DATA_FIRST := Environment(Script([], Returned(1)), false, [], [NextWrite([104]), NextStatus(404)],
                                  Script([], Returned(0)))

  lemma DataFirstDeeds(x: State)
    requires BufferedFromStart(x)
    ensures Proceeds(x, DATA_FIRST) && ErrorReport(x, DATA_FIRST) == []
    ensures LastStatus(AllDeeds(x, DATA_FIRST)) == 404
  {
    assert Lo(1) == 1;
    var ops := DATA_FIRST.next;
    assert AllDeeds(x, DATA_FIRST) == NextDeeds(ops);
    NextStatusLast(ops);
    assert ops[1..] == [NextStatus(404)];
    assert NextStatusAfter(0, ops[1..]) == NextStatusAfter(404, ops[1..][1..]);
  }

  /** The convention is needed: for that one the two runs differ in the status. */
  lemma DataBeforeStatusShowsBuffering(x: State, y: State)
    requires BufferedFromStart(x) && Unbuffering(y) && y.sent == []
    ensures var buffered, direct := ServeHttp(x, DATA_FIRST).0, ServeHttp(y, DATA_FIRST).0;
            && Received(buffered.sent, buffered.responseHeaders).status == 404
            && Received(direct.sent, direct.responseHeaders).status == 200
  {
    DataFirstDeeds(x);
    ReleasedIsWhatWasWritten(x, DATA_FIRST);
    var end := ServeHttp(x, DATA_FIRST).0;
    ReleasedReceives(404, BodyOf(AllDeeds(x, DATA_FIRST)), end.responseHeaders);
    assert [] + Released(404, BodyOf(AllDeeds(x, DATA_FIRST)), end.responseHeaders) == end.sent;
    assert Lo(1) == 1;
    UnbufferedRun(y, DATA_FIRST);
    assert Unbuffered(y.responseHeaders, DATA_FIRST.next)
        == [Data([104], y.responseHeaders)] + Unbuffered(y.responseHeaders, DATA_FIRST.next[1..]);
  }
}
