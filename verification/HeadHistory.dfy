/** What the calls of a guest leave of the request line and of every header, told from
    the history of the calls that came back. */
module HeadHistory {
  import opened Abi
  import opened FeatureBits
  import opened Exchange
  import opened Gates
  import opened Runs
  import opened RequestGates
  import R = ResponseFlow
  import T = Transparency

  /** The two header maps. Trailers are in that of the response. */
  datatype Side = OfRequest | OfResponse

  function SideOf(kind: HeaderKind): Side {
    if kind == RequestHeader then OfRequest else OfResponse
  }

  function HeadersOn(x: State, side: Side): HeaderMap {
    if side == OfRequest then x.requestHeaders else x.responseHeaders
  }

  /** A name's values, if the map has the name. */
  function Entry(headers: HeaderMap, name: bytes): Option<seq<bytes>> {
    if name in headers then Some(headers[name]) else None
  }

  // ---- The history of a name ----

  /** What a call does to a name. Adding to a trailer sets it. */
  function EditsOf(c: Call, side: Side, name: bytes): seq<HeaderChange> {
    match c
    case SetHeader(kind, n, v) => if SideOf(kind) == side && n == Some(name) && v.Some? then [Set(v.value)] else []
    case AddHeader(kind, n, v) =>
      if SideOf(kind) == side && n == Some(name) && v.Some?
      then [if kind in {RequestHeader, ResponseHeader} then Add(v.value) else Set(v.value)]
      else []
    case RemoveHeader(kind, n) => if SideOf(kind) == side && n == Some(name) then [Remove] else []
    case _ => []
  }

  function Edits(calls: seq<Call>, side: Side, name: bytes): seq<HeaderChange> {
    if calls == [] then [] else EditsOf(calls[0], side, name) + Edits(calls[1..], side, name)
  }

  /** How many edits there are up to and including the last set or remove. */
  function LastReset(edits: seq<HeaderChange>): (k: nat)
    ensures k <= |edits| && (k > 0 ==> !edits[k - 1].Add?)
    ensures forall i :: k <= i < |edits| ==> edits[i].Add?
  {
    if edits == [] then 0
    else if !edits[|edits| - 1].Add? then |edits| else LastReset(edits[..|edits| - 1])
  }

  function Added(edits: seq<HeaderChange>): seq<bytes> {
    if edits == [] then []
    else (if edits[0].Add? then [edits[0].value] else []) + Added(edits[1..])
  }

  function Extended(base: Option<seq<bytes>>, added: seq<bytes>): Option<seq<bytes>> {
    if added == [] then base else Some((if base.Some? then base.value else []) + added)
  }

  /** What the last set left, or nothing if it was a remove, or what there was before if
      there was neither; and behind it whatever was added since. */
  function EntryAfter(before: Option<seq<bytes>>, edits: seq<HeaderChange>): Option<seq<bytes>> {
    var k := LastReset(edits);
    var base := if k == 0 then before else if edits[k - 1].Set? then Some([edits[k - 1].value]) else None;
    Extended(base, Added(edits[k..]))
  }

  lemma {:induction false} ResetAfterOne(e: HeaderChange, edits: seq<HeaderChange>)
    ensures LastReset([e] + edits)
            == if LastReset(edits) > 0 then LastReset(edits) + 1 else if e.Add? then 0 else 1
    decreases |edits|
  {
    var all := [e] + edits;
    if edits == [] {
      assert all == [e] && [e][..0] == [];
    } else {
      assert all[|all| - 1] == edits[|edits| - 1];
      assert all[..|all| - 1] == [e] + edits[..|edits| - 1];
      ResetAfterOne(e, edits[..|edits| - 1]);
    }
  }

  lemma AddedAfterOne(e: HeaderChange, edits: seq<HeaderChange>)
    ensures Added([e] + edits) == (if e.Add? then [e.value] else []) + Added(edits)
  {
    assert ([e] + edits)[1..] == edits;
  }

  lemma OneEdit(e: HeaderChange, before: Option<seq<bytes>>)
    ensures EntryAfter(before, [e]) == match e
                                       case Set(v) => Some([v])
                                       case Add(v) => Extended(before, [v])
                                       case Remove => None
  {
    var one := [e];
    assert one[..0] == [] && one[1..] == [] && one[0..] == one;
    assert LastReset(one) == if e.Add? then 0 else 1;
    assert Added(one) == if e.Add? then [e.value] else [];
  }

  lemma ExtendTwice(base: Option<seq<bytes>>, one: seq<bytes>, two: seq<bytes>)
    ensures Extended(Extended(base, one), two) == Extended(base, one + two)
  {
    var first := if base.Some? then base.value else [];
    assert first + one + two == first + (one + two);
    assert one == [] ==> one + two == two;
    assert two == [] ==> one + two == one;
  }

  /** A history may be told in two parts. */
  lemma EditFirst(e: HeaderChange, edits: seq<HeaderChange>, before: Option<seq<bytes>>)
    ensures EntryAfter(before, [e] + edits) == EntryAfter(EntryAfter(before, [e]), edits)
  {
    var all, k := [e] + edits, LastReset(edits);
    ResetAfterOne(e, edits);
    OneEdit(e, before);
    if k > 0 {
      assert all[k + 1..] == edits[k..];
    } else {
      assert edits[0..] == edits && all[0..] == all && all[1..] == edits;
      AddedAfterOne(e, edits);
      if e.Add? {
        ExtendTwice(before, [e.value], Added(edits));
      }
    }
  }

  lemma EditAppend(one: seq<HeaderChange>, edits: seq<HeaderChange>, before: Option<seq<bytes>>)
    requires |one| <= 1
    ensures EntryAfter(before, one + edits) == EntryAfter(EntryAfter(before, one), edits)
  {
    if one == [] {
      assert one + edits == edits;
    } else {
      assert one == [one[0]];
      EditFirst(one[0], edits, before);
    }
  }

  // ---- Calls ----

  lemma HeadersStay(x: State, c: Call)
    requires !c.SetHeader? && !c.AddHeader? && !c.RemoveHeader?
    ensures var y := Step(x, c).x; y.requestHeaders == x.requestHeaders && y.responseHeaders == x.responseHeaders
  {
    match c
    case EnableFeatures(f) => EnableFrame(x, f);
    case ReadBody(_, _, _, _) => ReadFrame(x, c);
    case WriteBody(kind, _) =>
      if kind == ResponseBody {
        ResponseWriteFrame(x, c);
      } else {
        RequestWriteFrame(x, c);
      }
    case _ =>
  }

  /** The edit that a change of a header of some kind is. */
  function EditOf(kind: HeaderKind, change: HeaderChange): HeaderChange {
    if kind !in {RequestHeader, ResponseHeader} && change.Add? then Set(change.value) else change
  }

  lemma ChangeIsEdit(x: State, kind: HeaderKind, n: bytes, change: HeaderChange, side: Side, name: bytes)
    ensures Entry(HeadersOn(ChangeHeader(x, kind, n, change), side), name)
            == EntryAfter(Entry(HeadersOn(x, side), name),
                          if SideOf(kind) == side && n == name then [EditOf(kind, change)] else [])
  {
    OneEdit(EditOf(kind, change), Entry(HeadersOn(x, side), name));
  }

  lemma HeaderCallEdits(x: State, kind: HeaderKind, n: Option<bytes>, change: Option<HeaderChange>, side: Side,
                        name: bytes)
    requires !OnHeader(x, kind, n, change).answer.Panic?
    ensures n.Some? && change.Some?
    ensures Entry(HeadersOn(OnHeader(x, kind, n, change).x, side), name)
            == EntryAfter(Entry(HeadersOn(x, side), name),
                          if SideOf(kind) == side && n == Some(name) then [EditOf(kind, change.value)] else [])
  {
    ChangeIsEdit(x, kind, n.value, change.value, side, name);
  }

  /** A call that comes back has made its edits, and no others. */
  lemma StepEdits(x: State, c: Call, side: Side, name: bytes)
    requires !Step(x, c).answer.Panic?
    ensures Entry(HeadersOn(Step(x, c).x, side), name)
            == EntryAfter(Entry(HeadersOn(x, side), name), EditsOf(c, side, name))
  {
    match c
    case SetHeader(kind, n, v) =>
      HeaderCallEdits(x, kind, n, if v.Some? then Some(Set(v.value)) else None, side, name);
    case AddHeader(kind, n, v) =>
      HeaderCallEdits(x, kind, n, if v.Some? then Some(Add(v.value)) else None, side, name);
    case RemoveHeader(kind, n) => HeaderCallEdits(x, kind, n, Some(Remove), side, name);
    case _ => HeadersStay(x, c);
  }

  lemma TrapEditsNothing(x: State, c: Call, side: Side)
    requires Step(x, c).answer.Panic?
    ensures HeadersOn(Step(x, c).x, side) == HeadersOn(x, side)
  {
    if c.SetHeader? || c.AddHeader? || c.RemoveHeader? {
      TrappedChangeIsNone(x, c);
    } else {
      HeadersStay(x, c);
    }
  }

  lemma OneCallsEdits(x: State, calls: seq<Call>, side: Side, name: bytes)
    requires calls != [] && !Step(x, calls[0]).answer.Panic?
    ensures Edits(CameBack(x, calls), side, name)
            == EditsOf(calls[0], side, name) + Edits(CameBack(Step(x, calls[0]).x, calls[1..]), side, name)
  {
    CameBackStep(x, calls);
    var back := CameBack(Step(x, calls[0]).x, calls[1..]);
    assert CameBack(x, calls) == [calls[0]] + back;
    assert ([calls[0]] + back)[1..] == back;
  }

  lemma FirstEdits(x: State, calls: seq<Call>, side: Side, name: bytes)
    requires calls != [] && !Step(x, calls[0]).answer.Panic?
    ensures var r := Step(x, calls[0]);
            EntryAfter(Entry(HeadersOn(r.x, side), name), Edits(CameBack(r.x, calls[1..]), side, name))
            == EntryAfter(Entry(HeadersOn(x, side), name), Edits(CameBack(x, calls), side, name))
  {
    var later := CameBack(Step(x, calls[0]).x, calls[1..]);
    StepEdits(x, calls[0], side, name);
    OneCallsEdits(x, calls, side, name);
    EditAppend(EditsOf(calls[0], side, name), Edits(later, side, name), Entry(HeadersOn(x, side), name));
  }

  /** After any calls every header, on either side, has the values its history says. */
  lemma {:induction false} HeadersAreTheirHistory(x: State, calls: seq<Call>, side: Side, name: bytes)
    ensures Entry(HeadersOn(Calls(x, calls).x, side), name)
            == EntryAfter(Entry(HeadersOn(x, side), name), Edits(CameBack(x, calls), side, name))
    decreases |calls|
  {
    if calls != [] {
      var c, r := calls[0], Step(x, calls[0]);
      CameBackStep(x, calls);
      if r.answer.Panic? {
        TrapEditsNothing(x, c, side);
      } else {
        HeadersAreTheirHistory(r.x, calls[1..], side, name);
        FirstEdits(x, calls, side, name);
      }
    }
  }

  // ---- The request line ----

  /** The text of the last set_method, or the method before. */
  function LastMethod(before: bytes, calls: seq<Call>): bytes {
    if calls == [] then before
    else
      var last := calls[|calls| - 1];
      if last.SetMethod? && last.text.Some? then last.text.value else LastMethod(before, calls[..|calls| - 1])
  }

  /** The text of the last set_uri, where an empty one stands for "/". */
  function LastUri(before: bytes, calls: seq<Call>): bytes {
    if calls == [] then before
    else
      var last := calls[|calls| - 1];
      if last.SetUri? && last.text.Some? then (if last.text.value == [] then ['/' as int] else last.text.value)
      else LastUri(before, calls[..|calls| - 1])
  }

  lemma {:induction false} LineFirst(c: Call, calls: seq<Call>, verb: bytes, uri: bytes)
    ensures LastMethod(verb, [c] + calls) == LastMethod(LastMethod(verb, [c]), calls)
    ensures LastUri(uri, [c] + calls) == LastUri(LastUri(uri, [c]), calls)
    decreases |calls|
  {
    var all := [c] + calls;
    if calls == [] {
      assert all == [c];
    } else {
      assert all[|all| - 1] == calls[|calls| - 1] && all[..|all| - 1] == [c] + calls[..|calls| - 1];
      LineFirst(c, calls[..|calls| - 1], verb, uri);
    }
  }

  lemma LineStep(x: State, c: Call)
    ensures var r := Step(x, c);
            && r.x.verb == (if r.answer.Panic? then x.verb else LastMethod(x.verb, [c]))
            && r.x.uri == (if r.answer.Panic? then x.uri else LastUri(x.uri, [c]))
  {
    assert [c][..0] == [];
    match c
    case EnableFeatures(f) => EnableFrame(x, f);
    case ReadBody(_, _, _, _) => ReadFrame(x, c);
    case WriteBody(kind, _) =>
      if kind == ResponseBody {
        ResponseWriteFrame(x, c);
      } else {
        RequestWriteFrame(x, c);
      }
    case _ =>
  }

  /** After any calls the request line is the last that was set, and the method is not
      empty unless it was before. */
  lemma {:induction false} LineIsTheLastSet(x: State, calls: seq<Call>)
    ensures Calls(x, calls).x.verb == LastMethod(x.verb, CameBack(x, calls))
    ensures Calls(x, calls).x.uri == LastUri(x.uri, CameBack(x, calls))
    ensures x.verb != [] ==> Calls(x, calls).x.verb != []
    decreases |calls|
  {
    if calls != [] {
      var c, r := calls[0], Step(x, calls[0]);
      CameBackStep(x, calls);
      LineStep(x, c);
      assert x.verb != [] ==> r.x.verb != [];
      if !r.answer.Panic? {
        LineIsTheLastSet(r.x, calls[1..]);
        LineFirst(c, CameBack(r.x, calls[1..]), x.verb, x.uri);
      }
    }
  }

  // ---- Whole requests ----

  lemma RequestPhaseHead(x: State, env: Environment)
    ensures var y, z := Calls(x, env.request.calls).x, RequestPhase(x, env).0;
            RequestHead(z) == RequestHead(y) && z.responseHeaders == y.responseHeaders
  {
  }

  lemma {:induction false} NextKeepsHead(x: State, ops: seq<NextOp>)
    ensures RequestHead(RunNext(x, ops)) == RequestHead(x)
    decreases |ops|
  {
    if ops != [] {
      NextKeepsHead(DoNext(x, ops[0]), ops[1..]);
    }
  }

  /** What the next handler finds of method, URI and request headers, and what is there
      of them when ServeHTTP ends, is what the calls of handle_request made of them. */
  lemma RequestHeadOfARequest(x: State, env: Environment, name: bytes)
    ensures var back, u, end :=
              CameBack(x, env.request.calls), ResetBody(RequestPhase(x, env).0), ServeHttp(x, env).0;
            && RequestHead(end) == RequestHead(u)
            && u.verb == LastMethod(x.verb, back) && u.uri == LastUri(x.uri, back)
            && Entry(u.requestHeaders, name)
               == EntryAfter(Entry(x.requestHeaders, name), Edits(back, OfRequest, name))
  {
    LineIsTheLastSet(x, env.request.calls);
    HeadersAreTheirHistory(x, env.request.calls, OfRequest, name);
    RequestPhaseHead(x, env);
    R.ResetFrame(RequestPhase(x, env).0);
    HeadStaysToTheEnd(x, env);
  }

  lemma HeadStaysToTheEnd(x: State, env: Environment)
    ensures RequestHead(ServeHttp(x, env).0) == RequestHead(RequestPhase(x, env).0)
  {
    if R.Proceeds(x, env) {
      R.ResetFrame(RequestPhase(x, env).0);
      NextKeepsHead(ResetBody(RequestPhase(x, env).0), env.next);
      ResponseKeepsHead(BeforeResponse(x, env), env.response);
    }
  }

  lemma ResponseKeepsHead(x: State, script: Script)
    ensures RequestHead(HandleResponse(x, script).0) == RequestHead(x)
  {
    var u := x.(afterNext := true);
    FrozenAfterNext(u, script.calls);
    assert RequestHead(u) == RequestHead(x);
  }

  lemma {:induction false} NextLeavesHeaders(x: State, ops: seq<NextOp>)
    ensures RunNext(x, ops).responseHeaders == T.HeadersAfter(x.responseHeaders, ops)
    decreases |ops|
  {
    if ops != [] {
      NextLeavesHeaders(DoNext(x, ops[0]), ops[1..]);
    }
  }

  lemma LastHeaders(x: State, env: Environment)
    ensures ServeHttp(x, env).0.responseHeaders
            == (if R.Proceeds(x, env)
                then HandleResponse(BeforeResponse(x, env), env.response).0 else RequestPhase(x, env).0).responseHeaders
  {
  }

  lemma ResponseCallsHeaders(x: State, script: Script)
    requires x.guest.Some?
    ensures HandleResponse(x, script).0.responseHeaders == Calls(x.(afterNext := true), script.calls).x.responseHeaders
  {
  }

  /** The response headers in the end: what handle_request made of them, then the next
      handler, then handle_response. */
  lemma ResponseHeadersOfARequest(x: State, env: Environment, name: bytes)
    requires Agreement(x) && x.guest.Some?
    ensures var y, end := Calls(x, env.request.calls).x, ServeHttp(x, env).0;
            && Entry(y.responseHeaders, name)
               == EntryAfter(Entry(x.responseHeaders, name), Edits(CameBack(x, env.request.calls), OfResponse, name))
            && if !R.Proceeds(x, env) then end.responseHeaders == y.responseHeaders
               else
                 var left, u := T.HeadersAfter(y.responseHeaders, env.next), R.ResponseStart(x, env);
                 Entry(end.responseHeaders, name)
                 == EntryAfter(Entry(left, name), Edits(CameBack(u, env.response.calls), OfResponse, name))
  {
    HeadersAreTheirHistory(x, env.request.calls, OfResponse, name);
    RequestPhaseHead(x, env);
    LastHeaders(x, env);
    if R.Proceeds(x, env) {
      var z, u := RequestPhase(x, env).0, R.ResponseStart(x, env);
      ResponseStartAgrees(x, env);
      R.ResetFrame(z);
      NextLeavesHeaders(ResetBody(z), env.next);
      HeadersAreTheirHistory(u, env.response.calls, OfResponse, name);
      ResponseCallsHeaders(BeforeResponse(x, env), env.response);
    }
  }

  /** A request arrives with its own method, URI and headers, all features of the
      middleware on, the guest it was given, and nothing of a response. */
  lemma Arrives(features: Features, guest: nat, body: Body, verb: bytes, uri: bytes, headers: HeaderMap)
    ensures var x := Begin(features, guest, body, verb, uri, headers);
            && RequestHead(x) == (verb, uri, headers) && x.features == x.hostFeatures == features
            && x.guest == Some(guest) && !x.afterNext && x.bodies[0] == body
            && x.responseHeaders == map[] && x.sent == [] && x.responseWriter.None? && x.responseReader.None?
            && x.w == (if IsEnabled(features, BUFFER_RESPONSE) then Buffering(0, []) else Plain)
  {
    BeginAgrees(features, guest, body, verb, uri, headers);
    assert WithEnabled({}, features) == features;
  }
}
