/** What becomes of a buffered response: writes of the guest and of the next
    handler, the status, snapshots read in between, and what is released. */
module ResponseFlow {
  import opened Abi
  import opened FeatureBits
  import opened GuestLog
  import opened Exchange
  import opened Gates

  /** The things done to a response, by whom, in order. */
  datatype Deed = GuestWrite(data: bytes) | NextWrites(data: bytes) | StatusSet(code: uint32)

  /** A write call that traps because its data is outside memory still counts as a
      write of nothing: the writer has been asked for. */
  function DeedsOf(c: Call): seq<Deed> {
    match c
    case WriteBody(kind, data) =>
      if kind == ResponseBody then [GuestWrite(if data.Some? then data.value else [])] else []
    case SetStatusCode(code) => [StatusSet(code)]
    case _ => []
  }

  /** The deeds of the calls a guest gets to make. */
  function CallDeeds(x: State, calls: seq<Call>): seq<Deed>
    decreases |calls|
  {
    if calls == [] then []
    else
      var r := Step(x, calls[0]);
      DeedsOf(calls[0]) + (if r.answer.Panic? then [] else CallDeeds(r.x, calls[1..]))
  }

  function DeedsOfNext(op: NextOp): seq<Deed> {
    match op
    case NextStatus(code) => [StatusSet(code)]
    case NextWrite(d) => [NextWrites(d)]
    case NextHeaders(_) => []
  }

  function NextDeeds(ops: seq<NextOp>): seq<Deed> {
    if ops == [] then [] else DeedsOfNext(ops[0]) + NextDeeds(ops[1..])
  }

  predicate GuestWrote(deeds: seq<Deed>) {
    exists d :: d in deeds && d.GuestWrite?
  }

  /** All the bytes written. */
  function Joined(deeds: seq<Deed>): bytes {
    if deeds == [] then []
    else (if deeds[0].StatusSet? then [] else deeds[0].data) + Joined(deeds[1..])
  }

  /** The deeds from the guest's first write on, or all if it never writes. */
  function FromFirstGuestWrite(deeds: seq<Deed>): seq<Deed> {
    if !GuestWrote(deeds) || deeds[0].GuestWrite? then deeds else FromFirstGuestWrite(deeds[1..])
  }

  /** The documented response body. */
  function BodyOf(deeds: seq<Deed>): bytes {
    Joined(FromFirstGuestWrite(deeds))
  }

  /** The status set last, or zero. */
  function LastStatus(deeds: seq<Deed>): uint32 {
    if deeds == [] then 0
    else if deeds[|deeds| - 1].StatusSet? then deeds[|deeds| - 1].code
    else LastStatus(deeds[..|deeds| - 1])
  }

  /** What a buffering writer has to remember of the deeds so far. */
  datatype Amount = Amount(status: uint32, body: bytes, guestWrote: bool)

  const NOTHING := Amount(0, [], false)

  function AddDeed(a: Amount, d: Deed): Amount {
    match d
    case StatusSet(code) => a.(status := code)
    case NextWrites(data) => a.(body := a.body + data)
    case GuestWrite(data) => Amount(a.status, if a.guestWrote then a.body + data else data, true)
  }

  function AddAll(a: Amount, deeds: seq<Deed>): Amount
    decreases |deeds|
  {
    if deeds == [] then a else AddAll(AddDeed(a, deeds[0]), deeds[1..])
  }

  lemma {:induction false} AddAllAppend(a: Amount, d1: seq<Deed>, d2: seq<Deed>)
    ensures AddAll(a, d1 + d2) == AddAll(AddAll(a, d1), d2)
    decreases |d1|
  {
    if d1 == [] {
      assert d1 + d2 == d2;
    } else {
      AddAllAppend(AddDeed(a, d1[0]), d1[1..], d2);
      assert (d1 + d2)[1..] == d1[1..] + d2;
    }
  }

  lemma AddOne(a: Amount, d: Deed)
    ensures AddAll(a, [d]) == AddDeed(a, d)
  {
    assert [d][1..] == [];
  }

  /** Once the guest has written, everything counts. */
  lemma {:induction false} AddAfterGuest(a: Amount, deeds: seq<Deed>)
    requires a.guestWrote
    ensures AddAll(a, deeds).body == a.body + Joined(deeds) && AddAll(a, deeds).guestWrote
    decreases |deeds|
  {
    if deeds != [] {
      AddAfterGuest(AddDeed(a, deeds[0]), deeds[1..]);
    }
  }

  /** What is remembered is the documented body. */
  lemma {:induction false} AmountIsBody(a: Amount, deeds: seq<Deed>)
    requires !a.guestWrote
    ensures AddAll(a, deeds).guestWrote == GuestWrote(deeds)
    ensures AddAll(a, deeds).body == (if GuestWrote(deeds) then [] else a.body) + BodyOf(deeds)
    decreases |deeds|
  {
    if deeds != [] {
      assert deeds == [deeds[0]] + deeds[1..];
      if deeds[0].GuestWrite? {
        assert deeds[0] in deeds;
        AddAfterGuest(AddDeed(a, deeds[0]), deeds[1..]);
      } else {
        assert GuestWrote(deeds) <==> GuestWrote(deeds[1..]);
        AmountIsBody(AddDeed(a, deeds[0]), deeds[1..]);
      }
    }
  }

  lemma {:induction false} AmountIsLastStatus(a: Amount, deeds: seq<Deed>)
    ensures AddAll(a, deeds).status == if HasStatus(deeds) then LastStatus(deeds) else a.status
    ensures !HasStatus(deeds) ==> LastStatus(deeds) == 0
    decreases |deeds|
  {
    if deeds != [] {
      var init, last := deeds[..|deeds| - 1], deeds[|deeds| - 1];
      assert deeds == init + [last];
      AddAllAppend(a, init, [last]);
      AddOne(AddAll(a, init), last);
      AmountIsLastStatus(a, init);
    }
  }

  predicate HasStatus(deeds: seq<Deed>) {
    exists d :: d in deeds && d.StatusSet?
  }

  lemma AmountOfAll(deeds: seq<Deed>)
    ensures AddAll(NOTHING, deeds) == Amount(LastStatus(deeds), BodyOf(deeds), GuestWrote(deeds))
  {
    AmountIsBody(NOTHING, deeds);
    AmountIsLastStatus(NOTHING, deeds);
    assert [] + BodyOf(deeds) == BodyOf(deeds);
  }

  /** The buffering writer holds that amount. */
  ghost predicate Tracks(x: State, a: Amount) {
    && Agreement(x)
    && x.w == Buffering(a.status, a.body)
    && x.responseWriter == (if a.guestWrote then Some(Buffered) else None)
  }

  lemma StepTracks(x: State, a: Amount, c: Call)
    requires Tracks(x, a)
    ensures Tracks(Step(x, c).x, AddAll(a, DeedsOf(c)))
    ensures Step(x, c).x.sent == x.sent
  {
    StepKeepsAgreement(x, c);
    match c
    case EnableFeatures(f) => EnableFrame(x, f);
    case ReadBody(_, _, _, _) => ReadFrame(x, c);
    case WriteBody(kind, data) =>
      if kind == ResponseBody {
        AddOne(a, GuestWrite(if data.Some? then data.value else []));
        WriteTracks(x, a, data);
      } else {
        RequestWriteFrame(x, c);
      }
    case SetStatusCode(code) => AddOne(a, StatusSet(code));
    case _ =>
      if ChangesHead(c) {
        HeadFrame(x, c);
      }
  }

  lemma WriteTracks(x: State, a: Amount, data: Option<bytes>)
    requires Tracks(x, a)
    ensures var y, b := OnWriteResponse(x, data).x, AddDeed(a, GuestWrite(if data.Some? then data.value else []));
            && y.sent == x.sent && y.w == Buffering(b.status, b.body) && y.responseWriter == Some(Buffered)
  {
    var y := OpenResponseWriter(x);
    assert y.w == Buffering(a.status, if a.guestWrote then a.body else []);
    assert y.sent == x.sent && y.responseWriter == Some(Buffered);
    if data.None? {
      assert a.body + [] == a.body;
    } else {
      assert [] + data.value == data.value;
    }
  }

  lemma {:induction false} CallsTrack(x: State, a: Amount, calls: seq<Call>)
    requires Tracks(x, a)
    ensures Tracks(Calls(x, calls).x, AddAll(a, CallDeeds(x, calls)))
    ensures Calls(x, calls).x.sent == x.sent
    decreases |calls|
  {
    if calls != [] {
      StepTracks(x, a, calls[0]);
      var r, deeds := Step(x, calls[0]), DeedsOf(calls[0]);
      if r.answer.Panic? {
        assert deeds + [] == deeds;
      } else {
        CallsTrack(r.x, AddAll(a, deeds), calls[1..]);
        AddAllAppend(a, deeds, CallDeeds(r.x, calls[1..]));
      }
    }
  }

  lemma {:induction false} NextTracks(x: State, a: Amount, ops: seq<NextOp>)
    requires Tracks(x, a)
    ensures Tracks(RunNext(x, ops), AddAll(a, NextDeeds(ops)))
    ensures RunNext(x, ops).sent == x.sent && RunNext(x, ops).guest == x.guest
    decreases |ops|
  {
    if ops != [] {
      var deeds := DeedsOfNext(ops[0]);
      if deeds != [] {
        AddOne(a, deeds[0]);
        assert deeds == [deeds[0]];
      }
      NextTracks(DoNext(x, ops[0]), AddAll(a, deeds), ops[1..]);
      AddAllAppend(a, deeds, NextDeeds(ops[1..]));
    }
  }

  /** Where the guest's handle_response starts calling the host. */
  function ResponseStart(x: State, env: Environment): State {
    BeforeResponse(x, env).(afterNext := true)
  }

  predicate Proceeds(x: State, env: Environment) {
    Lo(CtxNext(RequestPhase(x, env).1)) != 0
  }

  /** All deeds of a request, in order; a guest that answers the request itself has
      no next handler and no response phase. */
  function AllDeeds(x: State, env: Environment): seq<Deed> {
    if !Proceeds(x, env) then CallDeeds(x, env.request.calls)
    else
      CallDeeds(x, env.request.calls) + NextDeeds(env.next)
      + CallDeeds(ResponseStart(x, env), env.response.calls)
  }

  /** What handleErr sends when the request phase failed. */
  function ErrorReport(x: State, env: Environment): seq<Sent> {
    var (y, ret) := HandleRequest(x, env.request);
    if ret.Trapped? || env.closeFails
    then [Status(500, y.responseHeaders), Data(env.message, y.responseHeaders)] else []
  }

  /** A fresh request with response buffering on. */
  ghost predicate BufferedFromStart(x: State) {
    Tracks(x, NOTHING) && x.guest.Some? && x.sent == []
  }

  lemma ResetFrame(x: State)
    ensures var y := ResetBody(x); y == x.(body := y.body, bodies := y.bodies)
  {
  }

  lemma BeginBuffered(features: Features, guest: nat, body: Body, verb: bytes, uri: bytes, headers: HeaderMap)
    requires IsEnabled(features, BUFFER_RESPONSE)
    ensures BufferedFromStart(Begin(features, guest, body, verb, uri, headers))
  {
    BeginAgrees(features, guest, body, verb, uri, headers);
  }

  /** Not yet written to. */
  ghost predicate Untouched(x: State) {
    Agreement(x) && x.guest.Some? && x.sent == [] && x.responseWriter == None && x.w in {Plain, Buffering(0, [])}
  }

  lemma StepStaysUntouched(x: State, c: Call)
    requires Untouched(x) && DeedsOf(c) == []
    ensures Untouched(Step(x, c).x)
  {
    StepKeepsAgreement(x, c);
    match c
    case EnableFeatures(f) => EnableFrame(x, f);
    case ReadBody(_, _, _, _) => ReadFrame(x, c);
    case WriteBody(_, _) => RequestWriteFrame(x, c);
    case _ =>
      if ChangesHead(c) {
        HeadFrame(x, c);
      }
  }

  lemma {:induction false} StaysUntouched(x: State, calls: seq<Call>)
    requires Untouched(x) && forall c :: c in calls ==> DeedsOf(c) == []
    ensures Untouched(Calls(x, calls).x)
    decreases |calls|
  {
    if calls != [] {
      var c := calls[0];
      assert c in calls;
      StepStaysUntouched(x, c);
      assert forall d :: d in calls[1..] ==> d in calls;
      StaysUntouched(Step(x, c).x, calls[1..]);
    }
  }

  lemma {:induction false} CallsAppend(x: State, pre: seq<Call>, calls: seq<Call>)
    requires !Calls(x, pre).answer.Panic?
    ensures Calls(x, pre + calls) == Calls(Calls(x, pre).x, calls)
    decreases |pre|
  {
    if pre == [] {
      assert pre + calls == calls;
    } else {
      CallsAppend(Step(x, pre[0]).x, pre[1..], calls);
      assert (pre + calls)[1..] == pre[1..] + calls;
    }
  }

  /** It is enough that a guest enables response buffering before its first write
      or status: from there on the request is one that buffers from the start. */
  lemma EnabledBeforeFirstWrite(x: State, pre: seq<Call>, env: Environment)
    requires Untouched(x) && forall c :: c in pre ==> DeedsOf(c) == []
    requires !Calls(x, pre).answer.Panic? && IsEnabled(Calls(x, pre).x.features, BUFFER_RESPONSE)
    ensures BufferedFromStart(Calls(x, pre).x)
    ensures ServeHttp(x, env.(request := env.request.(calls := pre + env.request.calls)))
            == ServeHttp(Calls(x, pre).x, env)
  {
    StaysUntouched(x, pre);
    CallsAppend(x, pre, env.request.calls);
    var env' := env.(request := env.request.(calls := pre + env.request.calls));
    assert HandleRequest(x, env'.request) == HandleRequest(Calls(x, pre).x, env.request);
    assert RequestPhase(x, env') == RequestPhase(Calls(x, pre).x, env);
    assert BeforeResponse(x, env') == BeforeResponse(Calls(x, pre).x, env);
  }

  /** The end of the request phase. */
  lemma RequestPhaseTracks(x: State, env: Environment)
    requires BufferedFromStart(x)
    ensures var z, a := RequestPhase(x, env).0, AddAll(NOTHING, CallDeeds(x, env.request.calls));
            && z.w == Buffering(a.status, a.body) && z.sent == ErrorReport(x, env)
            && z.responseHeaders == Calls(x, env.request.calls).x.responseHeaders
            && (Proceeds(x, env) ==> Tracks(z, a) && z.guest.Some?)
  {
    var r := Calls(x, env.request.calls);
    CallsTrack(x, NOTHING, env.request.calls);
    CallsKeepAgreement(x, env.request.calls);
    var y := HandleRequest(x, env.request).0;
    assert y.sent == [] && y.w == r.x.w && y.responseHeaders == r.x.responseHeaders;
    assert [] + ErrorReport(x, env) == ErrorReport(x, env);
  }

  /** By the time handle_response has made its calls, the writer holds all deeds
      and only an error report can have been sent. */
  lemma ResponsePhaseTracks(x: State, env: Environment)
    requires BufferedFromStart(x) && Proceeds(x, env)
    ensures var u, v := ResponseStart(x, env), Calls(ResponseStart(x, env), env.response.calls).x;
            && u.guest.Some? && u.sent == ErrorReport(x, env) && v.sent == ErrorReport(x, env)
            && Tracks(v, AddAll(NOTHING, AllDeeds(x, env)))
  {
    RequestPhaseTracks(x, env);
    var z, u := RequestPhase(x, env).0, ResponseStart(x, env);
    var d1, d2 := CallDeeds(x, env.request.calls), NextDeeds(env.next);
    ResetFrame(z);
    NextTracks(ResetBody(z), AddAll(NOTHING, d1), env.next);
    AddAllAppend(NOTHING, d1, d2);
    CallsTrack(u, AddAll(NOTHING, d1 + d2), env.response.calls);
    AddAllAppend(NOTHING, d1 + d2, CallDeeds(u, env.response.calls));
  }

  /** ServeHTTP ends with a release of what the writer holds then. */
  lemma ServeHttpReleases(x: State, env: Environment)
    requires BufferedFromStart(x)
    ensures var end := if Proceeds(x, env) then Calls(ResponseStart(x, env), env.response.calls).x
                       else RequestPhase(x, env).0;
            && ServeHttp(x, env).0.sent == Release(end).sent
            && ServeHttp(x, env).0.responseHeaders == end.responseHeaders
  {
    RequestPhaseTracks(x, env);
    if Proceeds(x, env) {
      ResponsePhaseTracks(x, env);
      var v := Calls(ResponseStart(x, env), env.response.calls).x;
      assert HandleResponse(BeforeResponse(x, env), env.response).0 == Close(v);
    }
  }

  /** With response buffering on from the start, whatever guest and next handler
      do, the client is sent the last status set and exactly the bytes written
      from the guest's first response write on, in one release at the end; before
      it, only the host's own error report can have been sent. */
  lemma ReleasedIsWhatWasWritten(x: State, env: Environment)
    requires BufferedFromStart(x)
    ensures var deeds, end := AllDeeds(x, env), ServeHttp(x, env).0;
            end.sent == ErrorReport(x, env) + Released(LastStatus(deeds), BodyOf(deeds), end.responseHeaders)
  {
    ServeHttpReleases(x, env);
    AmountOfAll(AllDeeds(x, env));
    RequestPhaseTracks(x, env);
    if Proceeds(x, env) {
      ResponsePhaseTracks(x, env);
    }
  }

  /** Nothing reaches the client while guest and next handler run, if the request
      phase did not fail: neither before handle_response nor during its calls. */
  lemma NothingSentBeforeRelease(x: State, env: Environment)
    requires BufferedFromStart(x) && Proceeds(x, env) && !env.closeFails
    ensures ResponseStart(x, env).sent == []
    ensures Calls(ResponseStart(x, env), env.response.calls).x.sent == []
  {
    ResponsePhaseTracks(x, env);
  }

  /** GetStatusCode tells the guest the status that would be released now. */
  lemma StatusCodeAgrees(x: State, a: Amount)
    requires Tracks(x, a)
    ensures Release(x).sent == x.sent + Released(a.status, a.body, x.responseHeaders)
    ensures OnGetStatus(x).answer == StatusIs(StatusIn(Released(a.status, a.body, x.responseHeaders)))
  {
  }

  /** The status a release names, or the default. */
  function StatusIn(sent: seq<Sent>): uint32 {
    if sent != [] && sent[0].Status? then sent[0].code else 200
  }

  // ---- What the documentation says of the first write ----

  predicate ByGuest(deeds: seq<Deed>) {
    forall d :: d in deeds ==> !d.NextWrites?
  }

  /** The documented body: the first write_body in handle_request overwrites, and so
      does the first one after the next handler. */
  function DocumentedBody(request: seq<Deed>, next: seq<Deed>, response: seq<Deed>): bytes {
    if GuestWrote(response) then BodyOf(response) else BodyOf(request + next)
  }

  lemma {:induction false} GuestBody(deeds: seq<Deed>)
    requires ByGuest(deeds)
    ensures BodyOf(deeds) == Joined(deeds) && (!GuestWrote(deeds) ==> Joined(deeds) == [])
  {
    if deeds != [] {
      GuestBody(deeds[1..]);
      assert deeds[0] in deeds;
      if GuestWrote(deeds) && !deeds[0].GuestWrite? {
        assert GuestWrote(deeds[1..]);
      }
    }
  }

  /** The writer is reset once in the whole request. That is the documented body
      unless the guest writes both before and after the next handler, with any data
      written before its first write of handle_response. */
  lemma DocumentedResetIff(request: seq<Deed>, next: seq<Deed>, response: seq<Deed>)
    requires ByGuest(request) && ByGuest(response) && !GuestWrote(next)
    ensures BodyOf(request + next + response) == DocumentedBody(request, next, response)
            <==> !GuestWrote(request) || !GuestWrote(response) || Joined(request) + Joined(next) == []
  {
    var before := AddAll(NOTHING, request + next);
    AddAllAppend(NOTHING, request, next);
    AddAllAppend(NOTHING, request + next, response);
    AmountOfAll(request);
    AmountOfAll(request + next);
    AmountOfAll(request + next + response);
    GuestBody(request);
    GuestBody(response);
    if GuestWrote(request) {
      AddAfterGuest(AddAll(NOTHING, request), next);
      AddAfterGuest(before, response);
    } else {
      AmountIsBody(AddAll(NOTHING, request), next);
      AmountIsBody(before, response);
    }
  }

  lemma {:induction false} CallDeedsByGuest(x: State, calls: seq<Call>)
    ensures ByGuest(CallDeeds(x, calls))
    decreases |calls|
  {
    if calls != [] && !Step(x, calls[0]).answer.Panic? {
      CallDeedsByGuest(Step(x, calls[0]).x, calls[1..]);
    }
  }

  lemma {:induction false} NextIsNotGuest(ops: seq<NextOp>)
    ensures !GuestWrote(NextDeeds(ops))
  {
    if ops != [] {
      NextIsNotGuest(ops[1..]);
    }
  }

  /** ... so over whole requests the released body is the documented one exactly then. */
  lemma ReleasesDocumentedBodyIff(x: State, env: Environment)
    requires BufferedFromStart(x) && Proceeds(x, env)
    ensures var request, next, response :=
              CallDeeds(x, env.request.calls), NextDeeds(env.next),
              CallDeeds(ResponseStart(x, env), env.response.calls);
            BodyOf(AllDeeds(x, env)) == DocumentedBody(request, next, response)
            <==> !GuestWrote(request) || !GuestWrote(response) || Joined(request) + Joined(next) == []
  {
    CallDeedsByGuest(x, env.request.calls);
    CallDeedsByGuest(ResponseStart(x, env), env.response.calls);
    NextIsNotGuest(env.next);
    DocumentedResetIff(CallDeeds(x, env.request.calls), NextDeeds(env.next),
                       CallDeeds(ResponseStart(x, env), env.response.calls));
  }

  /** A guest that writes "a" in handle_request and "b" in handle_response. */
  const WRITES_TWICE := Environment(Script([WriteBody(ResponseBody, Some([97]))], Returned(1)), false, [], [],
                                    Script([WriteBody(ResponseBody, Some([98]))], Returned(0)))

  lemma OneWrite(x: State, data: bytes)
    requires BeforeNextOrFeature(x, BUFFER_RESPONSE)
    ensures var calls := [WriteBody(ResponseBody, Some(data))];
            !Calls(x, calls).answer.Panic? && CallDeeds(x, calls) == [GuestWrite(data)]
  {
    var calls := [WriteBody(ResponseBody, Some(data))];
    assert calls[1..] == [];
    assert Step(x, calls[0]) == OnWriteResponse(x, Some(data));
    assert Calls(x, calls) == Calls(Step(x, calls[0]).x, []);
    assert CallDeeds(x, calls) == DeedsOf(calls[0]) + CallDeeds(Step(x, calls[0]).x, []);
  }

  /** Any buffered run of it sends "ab", where "b" is documented. */
  lemma SecondPhaseAppends(x: State)
    requires BufferedFromStart(x)
    ensures var end := ServeHttp(x, WRITES_TWICE).0;
            && Proceeds(x, WRITES_TWICE) && end.sent == [Data([97, 98], end.responseHeaders)]
            && DocumentedBody(CallDeeds(x, WRITES_TWICE.request.calls), NextDeeds([]),
                              CallDeeds(ResponseStart(x, WRITES_TWICE), WRITES_TWICE.response.calls)) == [98]
  {
    assert Lo(1) == 1;
    OneWrite(x, [97]);
    assert Proceeds(x, WRITES_TWICE) && ErrorReport(x, WRITES_TWICE) == [];
    ResponsePhaseTracks(x, WRITES_TWICE);
    var u := ResponseStart(x, WRITES_TWICE);
    StartIsBuffered(x, WRITES_TWICE);
    OneWrite(u, [98]);
    ReleasedIsWhatWasWritten(x, WRITES_TWICE);
    AB();
    assert AllDeeds(x, WRITES_TWICE) == [GuestWrite([97])] + [] + [GuestWrite([98])];
  }

  lemma StartIsBuffered(x: State, env: Environment)
    requires BufferedFromStart(x) && Proceeds(x, env)
    ensures var u := ResponseStart(x, env); u.w.Buffering? && BeforeNextOrFeature(u, BUFFER_RESPONSE)
  {
    RequestPhaseTracks(x, env);
    var z, a := RequestPhase(x, env).0, AddAll(NOTHING, CallDeeds(x, env.request.calls));
    ResetFrame(z);
    assert Tracks(ResetBody(z), a);
    NextTracks(ResetBody(z), a, env.next);
  }

  lemma AB()
    ensures var a, b := GuestWrite([97]), GuestWrite([98]);
            && BodyOf([a] + [] + [b]) == [97, 98] && LastStatus([a] + [] + [b]) == 0 && BodyOf([b]) == [98]
            && GuestWrote([b])
  {
    var a, b := GuestWrite([97]), GuestWrite([98]);
    var all, last := [a] + [] + [b], [b];
    assert all == [a, b] && all[0] in all && all[1..] == last && all[..1] == [a] && last[0] in last && last[1..] == [];
    assert FromFirstGuestWrite(all) == all && Joined(all) == [97] + Joined(last);
    assert Joined(last) == [98] + Joined([]) == [98];
    assert LastStatus(all) == LastStatus(all[..1]) == LastStatus([a][..0]);
  }
}
