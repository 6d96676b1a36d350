/** What the two layers of a request agree on, and what a guest can no longer
    change once the next handler has run. */
module Gates {
  import opened Abi
  import opened FeatureBits
  import opened Exchange

  /** Both layers have the same features, and the writer buffers exactly when they
      say so. */
  ghost predicate Agreement(x: State) {
    && x.features == x.hostFeatures
    && (x.w.Buffering? <==> IsEnabled(x.features, BUFFER_RESPONSE))
  }

  lemma EnableKeepsAgreement(x: State, f: Features)
    requires Agreement(x)
    ensures Agreement(Enable(x, f).x)
  {
  }

  lemma StepKeepsAgreement(x: State, c: Call)
    requires Agreement(x)
    ensures Agreement(Step(x, c).x)
    ensures x.afterNext == Step(x, c).x.afterNext && x.guest == Step(x, c).x.guest
  {
    match c
    case EnableFeatures(f) => EnableKeepsAgreement(x, f); EnableFrame(x, f);
    case ReadBody(_, _, _, _) => ReadFrame(x, c);
    case WriteBody(kind, _) =>
      if kind == ResponseBody {
        ResponseWriteFrame(x, c);
      } else {
        RequestWriteFrame(x, c);
      }
    case _ =>
      if ChangesHead(c) {
        HeadFrame(x, c);
      } else {
        StatusFrame(x, c);
      }
  }

  lemma {:induction false} CallsKeepAgreement(x: State, calls: seq<Call>)
    requires Agreement(x)
    ensures Agreement(Calls(x, calls).x)
    ensures x.afterNext == Calls(x, calls).x.afterNext && x.guest == Calls(x, calls).x.guest
    decreases |calls|
  {
    if calls != [] {
      StepKeepsAgreement(x, calls[0]);
      CallsKeepAgreement(Step(x, calls[0]).x, calls[1..]);
    }
  }

  lemma {:induction false} NextKeepsAgreement(x: State, ops: seq<NextOp>)
    requires Agreement(x)
    ensures Agreement(RunNext(x, ops))
    ensures RunNext(x, ops).guest == x.guest
    decreases |ops|
  {
    if ops != [] {
      NextKeepsAgreement(DoNext(x, ops[0]), ops[1..]);
    }
  }

  // ---- Which calls the gates stop ----

  /** What a call needs once the next handler has run: nothing, a feature, or that it
      had not. */
  datatype Need = Nothing | Feature(feature: nat) | BeforeNext

  function NeedOf(c: Call): Need {
    match c
    case EnableFeatures(_) => Nothing
    case Observe(_) => Nothing
    case GetStatusCode => Nothing
    case SetMethod(_) => BeforeNext
    case SetUri(_, _) => BeforeNext
    case SetHeader(kind, _, _) => NeedOfHeader(kind)
    case AddHeader(kind, _, _) => NeedOfHeader(kind)
    case RemoveHeader(kind, _) => NeedOfHeader(kind)
    case ReadBody(kind, _, _, _) =>
      if kind == RequestBody then Feature(BUFFER_REQUEST)
      else if kind == ResponseBody then Feature(BUFFER_RESPONSE) else Nothing
    case WriteBody(kind, _) =>
      if kind == RequestBody then BeforeNext
      else if kind == ResponseBody then Feature(BUFFER_RESPONSE) else Nothing
    case SetStatusCode(_) => Feature(BUFFER_RESPONSE)
  }

  function NeedOfHeader(kind: HeaderKind): Need {
    if kind in {ResponseHeader, ResponseTrailer} then Feature(BUFFER_RESPONSE) else BeforeNext
  }

  /** A header call without a name, or of no known kind, never gets anywhere. */
  predicate NamesAHeader(c: Call) {
    match c
    case SetHeader(_, name, _) => name != Some([])
    case AddHeader(_, name, _) => name != Some([])
    case RemoveHeader(_, name) => name != Some([])
    case _ => true
  }

  predicate OfNoKind(c: Call) {
    match c
    case SetHeader(kind, _, _) => kind == UnknownHeader
    case AddHeader(kind, _, _) => kind == UnknownHeader
    case RemoveHeader(kind, _) => kind == UnknownHeader
    case _ => false
  }

  /** A call is stopped by a gate if and only if the next handler has run and what the
      call then needs is missing, and a stopped call changes nothing. */
  lemma StoppedExactlyWhenLate(x: State, c: Call)
    ensures Step(x, c).answer == Panic(Gate) <==>
              && NamesAHeader(c)
              && (OfNoKind(c) || (x.afterNext && match NeedOf(c)
                                                 case Nothing => false
                                                 case Feature(f) => !IsEnabled(x.features, f)
                                                 case BeforeNext => true))
    ensures Step(x, c).answer == Panic(Gate) ==> Step(x, c).x == x
  {
    match c
    case ReadBody(kind, limit, inMemory, chunking) =>
      if kind == RequestBody {
        assert Step(x, c) == OnReadRequest(x, limit, inMemory, chunking);
      } else if kind == ResponseBody {
        assert Step(x, c) == OnReadResponse(x, limit, inMemory);
      }
    case WriteBody(kind, data) =>
      if kind == ResponseBody {
        assert Step(x, c) == OnWriteResponse(x, data);
      }
    case _ =>
  }

  /** Instantiating a guest inside a request enables features on the middleware,
      and through the context also on this request; every instance asks for what
      the first one did. */
  function Instantiate(x: State, middleware: Features, asked: seq<Features>): (State, Features)
    decreases |asked|
  {
    if asked == [] then (x, middleware)
    else
      var on := WithEnabled(middleware, asked[0]);
      Instantiate(HostEnable(x, on), on, asked[1..])
  }

  lemma {:induction false} InstantiateKeepsAgreement(x: State, middleware: Features, asked: seq<Features>)
    requires x.hostFeatures == middleware && (x.w.Buffering? <==> IsEnabled(middleware, BUFFER_RESPONSE))
    ensures var (y, m) := Instantiate(x, middleware, asked); Agreement(y.(features := m))
    decreases |asked|
  {
    if asked != [] {
      var on := WithEnabled(middleware, asked[0]);
      EnabledAbsorbs(middleware, asked[0]);
      InstantiateKeepsAgreement(HostEnable(x, on), on, asked[1..]);
    }
  }

  lemma BeginAgrees(features: Features, guest: nat, body: Body, verb: bytes, uri: bytes, headers: HeaderMap)
    ensures Agreement(Begin(features, guest, body, verb, uri, headers))
  {
    EnabledAbsorbs(features, features);
    assert WithEnabled({}, features) == features;
  }

  /** The type assertion on the response writer fails exactly for a status or body
      asked for while the response is not buffered; for a body that can only be
      before the next handler, and for the first read. */
  lemma AssertionFailsExactlyWhenUnbuffered(x: State, c: Call)
    requires Agreement(x)
    ensures Step(x, c).answer == Panic(NotBuffering) <==>
              && !IsEnabled(x.features, BUFFER_RESPONSE)
              && (c.GetStatusCode? || (c.ReadBody? && c.body == ResponseBody && !x.afterNext && x.responseReader.None?))
  {
  }

  /** So with agreement, a response body read that the gate lets through after the
      next handler reaches a buffering writer. */
  lemma ReadAfterNextIsBuffered(x: State, c: Call)
    requires Agreement(x) && x.afterNext && c.ReadBody? && c.body == ResponseBody
    ensures Step(x, c).answer == Panic(Gate) <==> !IsEnabled(x.features, BUFFER_RESPONSE)
    ensures Step(x, c).answer != Panic(Gate) ==> x.w.Buffering? && Step(x, c).answer != Panic(NotBuffering)
  {
    AssertionFailsExactlyWhenUnbuffered(x, c);
  }

  /** A method, URI or header call that traps changes nothing. */
  lemma TrappedChangeIsNone(x: State, c: Call)
    requires c.SetMethod? || c.SetUri? || c.SetHeader? || c.AddHeader? || c.RemoveHeader?
    requires Step(x, c).answer.Panic?
    ensures Step(x, c).x == x
  {
  }

  /** The request line and headers. */
  function RequestHead(x: State): (bytes, bytes, HeaderMap) {
    (x.verb, x.uri, x.requestHeaders)
  }

  /** Everything a client may see of the response. */
  function ResponseSide(x: State): (Writer, HeaderMap, seq<Sent>) {
    (x.w, x.responseHeaders, x.sent)
  }

  predicate AsksToBufferResponse(c: Call) {
    c.EnableFeatures? && IsEnabled(c.f, BUFFER_RESPONSE)
  }

  lemma StepAfterNext(x: State, c: Call)
    requires x.afterNext
    ensures Step(x, c).x.afterNext && RequestHead(Step(x, c).x) == RequestHead(x)
    ensures Agreement(x) && !IsEnabled(x.features, BUFFER_RESPONSE) && !AsksToBufferResponse(c) ==>
              && !IsEnabled(Step(x, c).x.features, BUFFER_RESPONSE)
              && ResponseSide(Step(x, c).x) == ResponseSide(x)
  {
    match c
    case EnableFeatures(f) =>
      EnableFrame(x, f);
    case ReadBody(_, _, _, _) => ReadFrame(x, c);
    case WriteBody(kind, _) =>
      if kind == ResponseBody {
        ResponseWriteFrame(x, c);
      } else {
        RequestWriteFrame(x, c);
      }
    case _ =>
      if ChangesHead(c) {
        HeadFrame(x, c);
      } else {
        StatusFrame(x, c);
      }
  }

  /** No sequence of calls inside handle_response changes the request line or the
      request headers, and unless response buffering is enabled for the request,
      none changes status, headers, trailers or body of the response. */
  lemma {:induction false} FrozenAfterNext(x: State, calls: seq<Call>)
    requires x.afterNext
    ensures RequestHead(Calls(x, calls).x) == RequestHead(x)
    ensures Agreement(x) && !IsEnabled(x.features, BUFFER_RESPONSE)
            && (forall c :: c in calls ==> !AsksToBufferResponse(c)) ==>
              ResponseSide(Calls(x, calls).x) == ResponseSide(x)
    decreases |calls|
  {
    if calls != [] {
      StepAfterNext(x, calls[0]);
      if Agreement(x) {
        StepKeepsAgreement(x, calls[0]);
      }
      assert forall c :: c in calls[1..] ==> c in calls;
      FrozenAfterNext(Step(x, calls[0]).x, calls[1..]);
    }
  }
}
