/** How far the calls of a guest get, and what they leave of features, request line
    and headers: in each case what a history of the calls themselves says. */
module Runs {
  import opened Exchange

  /** How many calls come back. */
  function Completed(x: State, calls: seq<Call>): (n: nat)
    ensures n <= |calls|
    decreases |calls|
  {
    if calls == [] || Step(x, calls[0]).answer.Panic? then 0
    else 1 + Completed(Step(x, calls[0]).x, calls[1..])
  }

  function CameBack(x: State, calls: seq<Call>): seq<Call> {
    calls[..Completed(x, calls)]
  }

  /** A run stops at the first call that traps, and only there. */
  lemma {:induction false} StopsAtTheTrap(x: State, calls: seq<Call>)
    ensures var n := Completed(x, calls);
            && !Calls(x, calls[..n]).answer.Panic?
            && (Calls(x, calls).answer.Panic? <==> n < |calls|)
            && (n < |calls| ==> Calls(x, calls) == Step(Calls(x, calls[..n]).x, calls[n]))
    decreases |calls|
  {
    var n := Completed(x, calls);
    if calls == [] {
      assert calls[..n] == [];
    } else if Step(x, calls[0]).answer.Panic? {
      assert calls[..n] == [] && Calls(x, []).x == x;
    } else {
      var more := calls[1..];
      StopsAtTheTrap(Step(x, calls[0]).x, more);
      assert calls[..n][1..] == more[..n - 1];
    }
  }

  lemma CameBackStep(x: State, calls: seq<Call>)
    requires calls != []
    ensures var r := Step(x, calls[0]);
            CameBack(x, calls) == if r.answer.Panic? then [] else [calls[0]] + CameBack(r.x, calls[1..])
  {
  }
}

/** Which features are on after any calls, and what the first call of a guest can
    count on. */
module Enabling {
  import opened Abi
  import opened FeatureBits
  import opened GuestLog
  import opened Exchange
  import opened Gates
  import opened ResponseFlow
  import opened Runs

  predicate AsksFor(c: Call, i: nat) {
    c.EnableFeatures? && IsEnabled(c.f, i)
  }

  /** enable_features turns on what it is asked for and nothing else, keeps what was
      on, and answers with all of it. */
  lemma EnablesWhatIsAsked(x: State, f: Features, i: nat)
    ensures var r := Step(x, EnableFeatures(f));
            && (IsEnabled(r.x.features, i) <==> IsEnabled(x.features, i) || IsEnabled(f, i))
            && r.answer == Enabled(r.x.features)
    ensures Agreement(x) && IsEnabled(f, BUFFER_RESPONSE) ==>
              Step(x, EnableFeatures(f)).x.w == if x.w.Plain? then Buffering(0, []) else x.w
  {
  }

  /** The other layer joins the flags it is told; it wraps the request body if it is told
      that feature, and the writer if it then has the other and had not wrapped it. */
  lemma HostJoinsFlags(x: State, f: Features, i: nat)
    ensures var y := HostEnable(x, f);
            && (IsEnabled(y.hostFeatures, i) <==> IsEnabled(x.hostFeatures, i) || IsEnabled(f, i))
            && (y.w.Buffering? <==> x.w.Buffering? || IsEnabled(y.hostFeatures, BUFFER_RESPONSE))
            && (x.w.Buffering? ==> y.w == x.w)
            && (if IsEnabled(f, BUFFER_REQUEST) then
                  y.body == |x.bodies| && y.bodies == x.bodies + [Recording(x.body, [])]
                else y.body == x.body && y.bodies == x.bodies)
  {
  }

  lemma OtherCallsEnableNothing(x: State, c: Call)
    requires !c.EnableFeatures?
    ensures Step(x, c).x.features == x.features
  {
    match c
    case ReadBody(_, _, _, _) => ReadFrame(x, c);
    case WriteBody(kind, _) =>
      if kind == ResponseBody {
        ResponseWriteFrame(x, c);
      } else {
        RequestWriteFrame(x, c);
      }
    case EnableFeatures(_) =>
    case _ =>
      if ChangesHead(c) {
        HeadFrame(x, c);
      } else {
        StatusFrame(x, c);
      }
  }

  /** After any calls a feature is on if and only if it was before, or a call that came
      before the first trap asked for it. */
  lemma {:induction false} OnExactlyWhenAsked(x: State, calls: seq<Call>, i: nat)
    ensures IsEnabled(Calls(x, calls).x.features, i)
            <==> IsEnabled(x.features, i) || exists c :: c in CameBack(x, calls) && AsksFor(c, i)
    decreases |calls|
  {
    if calls != [] {
      var c, r := calls[0], Step(x, calls[0]);
      CameBackStep(x, calls);
      if c.EnableFeatures? {
        EnablesWhatIsAsked(x, c.f, i);
      } else {
        OtherCallsEnableNothing(x, c);
      }
      if !r.answer.Panic? {
        OnExactlyWhenAsked(r.x, calls[1..], i);
        assert CameBack(x, calls) == [c] + CameBack(r.x, calls[1..]);
        assert c in CameBack(x, calls);
        assert forall d :: d in CameBack(x, calls) <==> d == c || d in CameBack(r.x, calls[1..]);
      }
    }
  }

  /** A guest of a middleware without features whose first call asks for response
      buffering has its whole request buffered, and released, as if the feature had
      been on all along. */
  lemma FirstCallBuffers(guest: nat, body: Body, verb: bytes, uri: bytes, headers: HeaderMap, f: Features,
                         env: Environment)
    requires IsEnabled(f, BUFFER_RESPONSE)
    ensures var x := Begin({}, guest, body, verb, uri, headers);
            var y := Step(x, EnableFeatures(f)).x;
            var asking := env.(request := env.request.(calls := [EnableFeatures(f)] + env.request.calls));
            var deeds, end := AllDeeds(y, env), ServeHttp(x, asking).0;
            && BufferedFromStart(y)
            && end.sent == ErrorReport(y, env) + Released(LastStatus(deeds), BodyOf(deeds), end.responseHeaders)
  {
    var x := Begin({}, guest, body, verb, uri, headers);
    var ask := [EnableFeatures(f)];
    BeginAgrees({}, guest, body, verb, uri, headers);
    EnablesWhatIsAsked(x, f, BUFFER_RESPONSE);
    assert ask[1..] == [];
    assert Calls(x, ask) == Calls(Step(x, ask[0]).x, []);
    assert Untouched(x);
    EnabledBeforeFirstWrite(x, ask, env);
    ReleasedIsWhatWasWritten(Step(x, ask[0]).x, env);
  }
}
