/** What a request acquires and gives up: body reader handles and its guest. */
module Resources {
  import opened Abi
  import opened FeatureBits
  import opened GuestLog
  import opened Exchange

  /** The handles of a request: the numbers of the two cached readers, how many
      were acquired, and the order in which they were closed. */
  datatype Account = Account(request: Option<nat>, response: Option<nat>, acquired: nat, closed: seq<nat>)

  function AccountOf(x: State): Account {
    Account(if x.requestReader.Some? then Some(x.requestReader.value.number) else None,
            if x.responseReader.Some? then Some(x.responseReader.value.number) else None,
            x.acquired, x.closed)
  }

  /** Every handle acquired so far is either cached, in one place, or has been
      closed once. */
  ghost predicate Balanced(a: Account) {
    && (forall n: nat {:trigger multiset(a.closed)[n]} ::
          multiset(a.closed)[n] == if n < a.acquired && a.request != Some(n) && a.response != Some(n) then 1 else 0)
    && (a.request.Some? ==> a.request.value < a.acquired && a.response != a.request)
    && (a.response.Some? ==> a.response.value < a.acquired)
  }

  ghost predicate Accounted(x: State) {
    Balanced(AccountOf(x))
  }

  /** Nothing is cached, and every handle ever acquired was closed exactly once. */
  ghost predicate AllClosed(x: State) {
    && x.requestReader.None? && x.requestWriter.None? && x.responseReader.None? && x.responseWriter.None?
    && (forall n: nat {:trigger multiset(x.closed)[n]} :: multiset(x.closed)[n] == if n < x.acquired then 1 else 0)
  }

  lemma ReadAccount(x: State, c: Call)
    requires c.ReadBody?
    ensures var a, b := AccountOf(x), AccountOf(Step(x, c).x);
            || b == a
            || (a.request == None && b == a.(request := Some(a.acquired), acquired := a.acquired + 1))
            || (a.response == None && b == a.(response := Some(a.acquired), acquired := a.acquired + 1))
  {
  }

  lemma ReadKeepsAccounts(x: State, c: Call)
    requires Accounted(x) && c.ReadBody?
    ensures Accounted(Step(x, c).x)
  {
    ReadAccount(x, c);
  }

  lemma StepKeepsAccounts(x: State, c: Call)
    requires Accounted(x)
    ensures Accounted(Step(x, c).x)
    ensures Step(x, c).x.putBack == x.putBack && Step(x, c).x.guest == x.guest
  {
    match c
    case EnableFeatures(f) => EnableFrame(x, f);
    case ReadBody(_, _, _, _) => ReadFrame(x, c); ReadKeepsAccounts(x, c);
    case WriteBody(kind, _) =>
      if kind == ResponseBody {
        ResponseWriteFrame(x, c);
      } else {
        RequestWriteFrame(x, c);
      }
    case _ =>
      if ChangesHead(c) {
        HeadFrame(x, c);
      } else {
        StatusFrame(x, c);
      }
  }

  lemma {:induction false} CallsKeepAccounts(x: State, calls: seq<Call>)
    requires Accounted(x)
    ensures Accounted(Calls(x, calls).x)
    ensures Calls(x, calls).x.putBack == x.putBack && Calls(x, calls).x.guest == x.guest
    decreases |calls|
  {
    if calls != [] {
      StepKeepsAccounts(x, calls[0]);
      CallsKeepAccounts(Step(x, calls[0]).x, calls[1..]);
    }
  }

  lemma CloseRequestKeepsAccounts(x: State)
    requires Accounted(x)
    ensures Accounted(CloseRequest(x))
  {
    assert multiset(CloseRequest(x).closed) == multiset(x.closed) + multiset(RequestReaderNumber(x));
  }

  lemma CloseResponseClosesRest(x: State)
    requires Accounted(x) && x.requestReader.None? && x.requestWriter.None?
    ensures AllClosed(CloseResponse(x))
  {
    assert multiset(CloseResponse(x).closed) == multiset(x.closed) + multiset(ResponseReaderNumber(x));
  }

  /** Close leaves nothing open and closes nothing twice ... */
  lemma CloseClosesAll(x: State)
    requires Accounted(x)
    ensures AllClosed(Close(x))
    ensures Close(x).guest == None
    ensures Close(x).putBack == x.putBack + if x.guest.Some? then [x.guest.value] else []
  {
    var y := PutGuest(x);
    assert AccountOf(y) == AccountOf(x);
    CloseRequestKeepsAccounts(y);
    CloseResponseClosesRest(CloseRequest(y));
  }

  /** ... so a further Close closes nothing and puts nothing back. */
  lemma CloseTwiceIsOnce(x: State)
    ensures Close(Close(x)) == Close(x)
  {
    var y := Close(x);
    assert y.closed + [] + [] == y.closed && y.putBack + [] == y.putBack;
  }

  /** A repeated HandleResponse panics on the missing guest and changes nothing. */
  lemma RepeatedResponseIsHarmless(x: State, script: Script)
    ensures var y := Close(x).(afterNext := true);
            HandleResponse(Close(x), script) == (y, Trapped)
  {
    CloseTwiceIsOnce(x.(afterNext := true));
    assert Close(x).(afterNext := true) == Close(x.(afterNext := true));
  }

  ghost predicate Fresh(x: State) {
    x.acquired == 0 && x.closed == [] && x.putBack == [] && x.guest.Some?
    && x.requestReader.None? && x.responseReader.None?
  }

  lemma BeginFresh(features: Features, guest: nat, body: Body, verb: bytes, uri: bytes, headers: HeaderMap)
    ensures Fresh(Begin(features, guest, body, verb, uri, headers))
    ensures Accounted(Begin(features, guest, body, verb, uri, headers))
  {
  }

  lemma {:induction false} NextKeepsAccounts(x: State, ops: seq<NextOp>)
    ensures var y := RunNext(x, ops);
            AccountOf(y) == AccountOf(x) && y.guest == x.guest && y.putBack == x.putBack
    decreases |ops|
  {
    if ops != [] {
      var y := DoNext(x, ops[0]);
      assert y == x.(w := y.w, sent := y.sent, responseHeaders := y.responseHeaders);
      NextKeepsAccounts(y, ops[1..]);
    }
  }

  /** The end of a request phase that keeps the guest. */
  lemma RequestPhaseKeepsAccounts(x: State, env: Environment)
    requires Fresh(x) && Accounted(x) && CtxNext(RequestPhase(x, env).1) != 0
    ensures var z := RequestPhase(x, env).0; Accounted(z) && z.guest == x.guest && z.putBack == []
  {
    var r := Calls(x, env.request.calls).x;
    CallsKeepAccounts(x, env.request.calls);
    CloseRequestKeepsAccounts(r);
    var z := RequestPhase(x, env).0;
    assert AccountOf(z) == AccountOf(CloseRequest(r)) && z.guest == r.guest && z.putBack == r.putBack;
  }

  lemma NextPhaseKeepsAccounts(x: State, env: Environment)
    requires Fresh(x) && Accounted(x) && Lo(CtxNext(RequestPhase(x, env).1)) != 0
    ensures var u := BeforeResponse(x, env); Accounted(u) && u.guest == x.guest && u.putBack == []
  {
    RequestPhaseKeepsAccounts(x, env);
    var z := ResetBody(RequestPhase(x, env).0);
    ResetKeepsAccounts(RequestPhase(x, env).0);
    NextKeepsAccounts(z, env.next);
  }

  lemma ResetKeepsAccounts(x: State)
    ensures var z := ResetBody(x); AccountOf(z) == AccountOf(x) && z.guest == x.guest && z.putBack == x.putBack
  {
  }

  /** The response phase, from the next handler to the final Close. */
  lemma ResponsePhaseGivesUp(x: State, env: Environment)
    requires Fresh(x) && Accounted(x) && Lo(CtxNext(RequestPhase(x, env).1)) != 0
    ensures var end := HandleResponse(BeforeResponse(x, env), env.response).0;
            AllClosed(end) && end.guest == None && end.putBack == [x.guest.value]
  {
    NextPhaseKeepsAccounts(x, env);
    var u := BeforeResponse(x, env).(afterNext := true);
    assert AccountOf(u) == AccountOf(BeforeResponse(x, env));
    CallsKeepAccounts(u, env.response.calls);
    CloseClosesAll(Calls(u, env.response.calls).x);
  }

  lemma ReleaseKeepsAccounts(x: State)
    ensures AccountOf(Release(x)) == AccountOf(x) && Release(x).guest == x.guest && Release(x).putBack == x.putBack
    ensures AllClosed(x) ==> AllClosed(Release(x))
  {
  }

  /** When ServeHTTP ends, normally or by panic, the guest is back in the pool once
      and every body reader the guest made the host open has been closed once, with
      one exception: a result whose low half is zero and whose upper half is not. Of the
      readers, the one of the response body is then all that can still be open. */
  lemma EverythingIsGivenUp(x: State, env: Environment)
    requires Fresh(x) && Accounted(x)
    ensures var end, ctxNext := ServeHttp(x, env).0, CtxNext(RequestPhase(x, env).1);
            && (!Leaks(ctxNext) ==> AllClosed(end) && end.guest == None && end.putBack == [x.guest.value])
            && (Leaks(ctxNext) ==>
                  && end.guest == x.guest && end.putBack == []
                  && Accounted(end) && end.requestReader.None? && end.requestWriter.None?)
  {
    var ctxNext := CtxNext(RequestPhase(x, env).1);
    var z := RequestPhase(x, env).0;
    if Lo(ctxNext) != 0 {
      ResponsePhaseGivesUp(x, env);
      ReleaseKeepsAccounts(HandleResponse(BeforeResponse(x, env), env.response).0);
    } else {
      ReleaseKeepsAccounts(z);
      if ctxNext == 0 {
        CallsKeepAccounts(x, env.request.calls);
        CloseClosesAll(Calls(x, env.request.calls).x);
        assert AllClosed(z);
      } else {
        RequestPhaseKeepsAccounts(x, env);
      }
    }
  }
}
