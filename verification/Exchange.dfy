/** One request as the host sees it: the request state of handler/state.go, the
    request state of handler/nethttp/middleware.go, and the host functions of
    handler/middleware.go and handler/nethttp/host.go that act on the two. These
    functions say what each step does to the values; Session.dfy carries them out
    on objects. */
module Exchange {
  import opened Abi
  import opened FeatureBits
  import opened GuestLog

  /** http.Header, keyed by canonical names. */
  type HeaderMap = map<bytes, seq<bytes>>

  datatype BodyKind = RequestBody | ResponseBody | UnknownBody
  datatype HeaderKind = RequestHeader | ResponseHeader | RequestTrailer | ResponseTrailer | UnknownHeader

  /** The objects a request body is made of: the stream the server provided, a
      bytes.Buffer, or a bufferingRequestBody around an earlier object. */
  datatype Body =
    | Stream(rest: bytes, fails: bool)
    | Buffer(content: bytes)
    | Recording(delegate: nat, record: bytes)

  /** The response writer a request state refers to. */
  datatype Writer = Plain | Buffering(status: uint32, body: bytes)

  /** What the underlying response writer was told, with the headers it had then. */
  datatype Sent = Status(code: uint32, headers: HeaderMap) | Data(data: bytes, headers: HeaderMap)

  /** Body readers are numbered as they are acquired. */
  datatype BodyReader = BodyReader(number: nat, of: nat)
  datatype Snapshot = Snapshot(number: nat, rest: bytes)

  datatype WriterRef = Direct | Buffered

  datatype State = State(
    // handler/state.go
    afterNext: bool,
    features: Features,
    requestReader: Option<BodyReader>,
    requestWriter: Option<nat>,
    responseReader: Option<Snapshot>,
    responseWriter: Option<WriterRef>,
    guest: Option<nat>,
    // handler/nethttp/middleware.go
    hostFeatures: Features,
    w: Writer,
    body: nat,
    bodies: seq<Body>,
    verb: bytes,
    uri: bytes,
    requestHeaders: HeaderMap,
    // the underlying response writer
    responseHeaders: HeaderMap,
    sent: seq<Sent>,
    // what has been acquired and given up
    acquired: nat,
    closed: seq<nat>,
    putBack: seq<nat>)

  /** How the server's stream hands out the bytes of one read_body: whether the end
      comes with the last bytes of a full buffer, and how many bytes come with it. */
  datatype Chunking = Chunking(withEof: bool, tail: nat)

  /** A call the guest makes. Text and data are None when the guest passes a
      region outside its memory. */
  datatype Call =
    | EnableFeatures(f: Features)
    | Observe(ok: bool)               // get_method, get_uri, get_header_names, log, ...
    | SetMethod(text: Option<bytes>)
    | SetUri(text: Option<bytes>, parses: bool)
    | SetHeader(kind: HeaderKind, name: Option<bytes>, value: Option<bytes>)
    | AddHeader(kind: HeaderKind, name: Option<bytes>, value: Option<bytes>)
    | RemoveHeader(kind: HeaderKind, name: Option<bytes>)
    | ReadBody(body: BodyKind, limit: uint32, inMemory: bool, chunking: Chunking)
    | WriteBody(body: BodyKind, data: Option<bytes>)
    | GetStatusCode
    | SetStatusCode(code: uint32)

  datatype Cause = Gate | BadArgument | OutOfMemory | NotBuffering | ReadFailed

  datatype Answer =
    | Done
    | Enabled(features: Features)
    | StatusIs(code: uint32)
    | Chunk(data: bytes, eof: bool)
    | Panic(cause: Cause)

  datatype Reply = Reply(x: State, answer: Answer)

  // ---- Features ----

  /** enableFeatures of handler/nethttp/middleware.go: a request body is wrapped on
      every call that names the feature, a response writer only once. */
  function HostEnable(x: State, features: Features): State {
    var on := WithEnabled(x.hostFeatures, features);
    var y := x.(hostFeatures := on);
    var z := if IsEnabled(features, BUFFER_REQUEST) then WrapBody(y) else y;
    if IsEnabled(on, BUFFER_RESPONSE) then WrapWriter(z) else z
  }

  function WrapBody(x: State): State {
    x.(body := |x.bodies|, bodies := x.bodies + [Recording(x.body, [])])
  }

  function WrapWriter(x: State): State {
    if x.w.Plain? then x.(w := Buffering(0, [])) else x
  }

  function Enable(x: State, f: Features): Reply {
    var on := WithEnabled(x.features, f);
    Reply(HostEnable(x, on).(features := on), Enabled(on))
  }

  // ---- Gates ----

  predicate BeforeNextOrFeature(x: State, feature: nat) {
    !x.afterNext || IsEnabled(x.features, feature)
  }

  predicate HeaderMutable(x: State, kind: HeaderKind) {
    match kind
    case RequestHeader => !x.afterNext
    case RequestTrailer => !x.afterNext
    case ResponseHeader => BeforeNextOrFeature(x, BUFFER_RESPONSE)
    case ResponseTrailer => BeforeNextOrFeature(x, BUFFER_RESPONSE)
    case UnknownHeader => false
  }

  // ---- Method, URI, headers ----

  function OnSetMethod(x: State, text: Option<bytes>): Reply {
    if x.afterNext then Reply(x, Panic(Gate))
    else match text
         case None => Reply(x, Panic(OutOfMemory))
         case Some(t) => if t == [] then Reply(x, Panic(BadArgument)) else Reply(x.(verb := t), Done)
  }

  function OnSetUri(x: State, text: Option<bytes>, parses: bool): Reply {
    if x.afterNext then Reply(x, Panic(Gate))
    else match text
         case None => Reply(x, Panic(OutOfMemory))
         case Some(t) =>
           if t != [] && !parses then Reply(x, Panic(BadArgument))
           else Reply(x.(uri := if t == [] then ['/' as int] else t), Done)
  }

  datatype HeaderChange = Set(value: bytes) | Add(value: bytes) | Remove

  function Changed(h: HeaderMap, name: bytes, c: HeaderChange): HeaderMap {
    match c
    case Set(v) => h[name := [v]]
    case Add(v) => h[name := (if name in h then h[name] else []) + [v]]
    case Remove => h - {name}
  }

  /** Trailers, of either kind, live in the response header map under a prefix that
      the name carries here, and adding to one overwrites it. */
  function ChangeHeader(x: State, kind: HeaderKind, name: bytes, c: HeaderChange): State {
    if kind == RequestHeader then x.(requestHeaders := Changed(x.requestHeaders, name, c))
    else
      var c' := if kind != ResponseHeader && c.Add? then Set(c.value) else c;
      x.(responseHeaders := Changed(x.responseHeaders, name, c'))
  }

  function OnHeader(x: State, kind: HeaderKind, name: Option<bytes>, c: Option<HeaderChange>): Reply {
    if name == Some([]) then Reply(x, Panic(BadArgument))
    else if !HeaderMutable(x, kind) then Reply(x, Panic(Gate))
    else if name.None? || c.None? then Reply(x, Panic(OutOfMemory))
    else Reply(ChangeHeader(x, kind, name.value, c.value), Done)
  }

  // ---- Bodies ----

  /** The object that holds the bytes behind a chain of wrappers. */
  function Leaf(bodies: seq<Body>, i: nat): nat {
    if i < |bodies| && bodies[i].Recording? && bodies[i].delegate < i then Leaf(bodies, bodies[i].delegate) else i
  }

  function Bytes(b: Body): bytes {
    match b
    case Stream(rest, _) => rest
    case Buffer(content) => content
    case Recording(_, _) => []
  }

  /** What reading object i to its end would give. */
  function Rest(bodies: seq<Body>, i: nat): bytes {
    var leaf := Leaf(bodies, i);
    if leaf < |bodies| then Bytes(bodies[leaf]) else []
  }

  /** Reading n bytes of object i; every wrapper on the way records what came with
      the end of the stream. */
  function Consume(bodies: seq<Body>, i: nat, n: nat, recorded: bytes): (r: seq<Body>)
    ensures |r| == |bodies|
    ensures forall j :: i < j < |bodies| ==> r[j] == bodies[j]
  {
    if i >= |bodies| then bodies
    else match bodies[i]
         case Stream(rest, fails) => bodies[i := Stream(rest[Min(n, |rest|)..], fails)]
         case Buffer(content) => bodies[i := Buffer(content[Min(n, |content|)..])]
         case Recording(d, record) =>
           if d < i then Consume(bodies, d, n, recorded)[i := Recording(d, record + recorded)] else bodies
  }

  /** Whether a read of `limit` bytes reports the end. */
  function Ends(b: Body, limit: nat, c: Chunking): bool {
    |Bytes(b)| < limit || (|Bytes(b)| == limit && b.Stream? && c.withEof)
  }

  /** How many of the n bytes come together with the end. A buffer reports it alone. */
  function TailOf(b: Body, limit: nat, n: nat, c: Chunking): nat {
    if !b.Stream? || !Ends(b, limit, c) then 0
    else if n == limit && c.tail == 0 then Min(1, n)
    else Min(c.tail, n)
  }

  /** The objects after reading from object i, and what the guest is told. */
  function ReadThrough(bodies: seq<Body>, i: nat, limit: nat, c: Chunking): (seq<Body>, Answer) {
    var leaf := Leaf(bodies, i);
    if leaf >= |bodies| then (bodies, Chunk([], true))
    else
      var b := bodies[leaf];
      var n := Min(limit, |Bytes(b)|);
      var data := Bytes(b)[..n];
      (Consume(bodies, i, n, data[n - TailOf(b, limit, n, c)..]),
       if Ends(b, limit, c) && b.Stream? && b.fails then Panic(ReadFailed) else Chunk(data, Ends(b, limit, c)))
  }

  function ReadFrom(x: State, i: nat, limit: nat, c: Chunking): Reply {
    var (bodies, answer) := ReadThrough(x.bodies, i, limit, c);
    Reply(x.(bodies := bodies), answer)
  }

  function OpenRequestReader(x: State): State {
    if x.requestReader.Some? then x
    else x.(requestReader := Some(BodyReader(x.acquired, x.body)), acquired := x.acquired + 1)
  }

  function OnReadRequest(x: State, limit: uint32, inMemory: bool, c: Chunking): Reply {
    if !BeforeNextOrFeature(x, BUFFER_REQUEST) then Reply(x, Panic(Gate))
    else
      var y := OpenRequestReader(x);
      if limit == 0 then Reply(y, Panic(BadArgument))
      else if !inMemory then Reply(y, Panic(OutOfMemory))
      else ReadFrom(y, y.requestReader.value.of, limit, c)
  }

  /** A snapshot of the buffered body, as of the first read. */
  function OpenResponseReader(x: State): State {
    if x.responseReader.Some? || x.w.Plain? then x
    else x.(responseReader := Some(Snapshot(x.acquired, x.w.body)), acquired := x.acquired + 1)
  }

  function OnReadResponse(x: State, limit: uint32, inMemory: bool): Reply {
    if !BeforeNextOrFeature(x, BUFFER_RESPONSE) then Reply(x, Panic(Gate))
    else if x.responseReader.None? && x.w.Plain? then Reply(x, Panic(NotBuffering))
    else ReadOpened(OpenResponseReader(x), limit, inMemory)
  }

  function ReadOpened(x: State, limit: uint32, inMemory: bool): Reply
    requires x.responseReader.Some?
  {
    if limit == 0 then Reply(x, Panic(BadArgument))
    else if !inMemory then Reply(x, Panic(OutOfMemory))
    else
      var rest := x.responseReader.value.rest;
      var n := Min(limit, |rest|);
      Reply(x.(responseReader := Some(x.responseReader.value.(rest := rest[n..]))),
            Chunk(rest[..n], |rest| < limit))
  }

  /** RequestBodyWriter: the body becomes a fresh buffer on the first write. */
  function OpenRequestWriter(x: State): State {
    if x.requestWriter.Some? then x
    else x.(requestWriter := Some(|x.bodies|), body := |x.bodies|, bodies := x.bodies + [Buffer([])])
  }

  function OnWriteRequest(x: State, data: Option<bytes>): Reply {
    if x.afterNext then Reply(x, Panic(Gate))
    else
      var y := OpenRequestWriter(x);
      var i := y.requestWriter.value;
      match data
      case None => Reply(y, Panic(OutOfMemory))
      case Some(d) =>
        if i < |y.bodies| && y.bodies[i].Buffer?
        then Reply(y.(bodies := y.bodies[i := Buffer(y.bodies[i].content + d)]), Done)
        else Reply(y, Done)
  }

  /** ResponseBodyWriter: a buffered body is reset on the first write. */
  function OpenResponseWriter(x: State): State {
    if x.responseWriter.Some? then x
    else match x.w
         case Plain => x.(responseWriter := Some(Direct))
         case Buffering(_, _) => x.(responseWriter := Some(Buffered), w := x.w.(body := []))
  }

  function OnWriteResponse(x: State, data: Option<bytes>): Reply {
    if !BeforeNextOrFeature(x, BUFFER_RESPONSE) then Reply(x, Panic(Gate))
    else ToResponseWriter(OpenResponseWriter(x), data)
  }

  function ToResponseWriter(x: State, data: Option<bytes>): Reply
    requires x.responseWriter.Some?
  {
    match data
    case None => Reply(x, Panic(OutOfMemory))
    case Some(d) =>
      if x.responseWriter.value.Buffered? && x.w.Buffering? then Reply(x.(w := x.w.(body := x.w.body + d)), Done)
      else Reply(x.(sent := x.sent + [Data(d, x.responseHeaders)]), Done)
  }

  // ---- Status ----

  function SetStatus(x: State, code: uint32): State {
    match x.w
    case Buffering(_, _) => x.(w := x.w.(status := code))
    case Plain => x.(sent := x.sent + [Status(code, x.responseHeaders)])
  }

  function OnSetStatus(x: State, code: uint32): Reply {
    if !BeforeNextOrFeature(x, BUFFER_RESPONSE) then Reply(x, Panic(Gate))
    else Reply(SetStatus(x, code), Done)
  }

  function OnGetStatus(x: State): Reply {
    match x.w
    case Plain => Reply(x, Panic(NotBuffering))
    case Buffering(status, _) => Reply(x, StatusIs(if status == 0 then 200 else status))
  }

  // ---- Guest calls ----

  function Step(x: State, c: Call): Reply {
    match c
    case EnableFeatures(f) => Enable(x, f)
    case Observe(ok) => Reply(x, if ok then Done else Panic(BadArgument))
    case SetMethod(text) => OnSetMethod(x, text)
    case SetUri(text, parses) => OnSetUri(x, text, parses)
    case SetHeader(kind, name, value) =>
      OnHeader(x, kind, name, if value.Some? then Some(Set(value.value)) else None)
    case AddHeader(kind, name, value) =>
      OnHeader(x, kind, name, if value.Some? then Some(Add(value.value)) else None)
    case RemoveHeader(kind, name) => OnHeader(x, kind, name, Some(Remove))
    case ReadBody(kind, limit, inMemory, chunking) =>
      (match kind
       case RequestBody => OnReadRequest(x, limit, inMemory, chunking)
       case ResponseBody => OnReadResponse(x, limit, inMemory)
       case UnknownBody => Reply(x, Panic(BadArgument)))
    case WriteBody(kind, data) =>
      (match kind
       case RequestBody => OnWriteRequest(x, data)
       case ResponseBody => OnWriteResponse(x, data)
       case UnknownBody => Reply(x, Panic(BadArgument)))
    case GetStatusCode => OnGetStatus(x)
    case SetStatusCode(code) => OnSetStatus(x, code)
  }

  /** The state after a guest's calls, which end at the first trap. */
  function Calls(x: State, calls: seq<Call>): Reply
    decreases |calls|
  {
    if calls == [] then Reply(x, Done)
    else
      var r := Step(x, calls[0]);
      if r.answer.Panic? then r else Calls(r.x, calls[1..])
  }

  // ---- The host around the guest ----

  function RequestReaderNumber(x: State): seq<nat> {
    if x.requestReader.Some? then [x.requestReader.value.number] else []
  }

  function ResponseReaderNumber(x: State): seq<nat> {
    if x.responseReader.Some? then [x.responseReader.value.number] else []
  }

  /** closeRequest of handler/state.go */
  function CloseRequest(x: State): State {
    x.(requestWriter := None, requestReader := None, closed := x.closed + RequestReaderNumber(x))
  }

  function PutGuest(x: State): State {
    if x.guest.Some? then x.(guest := None, putBack := x.putBack + [x.guest.value]) else x
  }

  function CloseResponse(x: State): State {
    x.(responseWriter := None, responseReader := None, closed := x.closed + ResponseReaderNumber(x))
  }

  /** Close of handler/state.go */
  function Close(x: State): State {
    CloseResponse(CloseRequest(PutGuest(x)))
  }

  /** The part of handleNext before the next handler runs. */
  function ResetBody(x: State): State {
    if x.body < |x.bodies| && x.bodies[x.body].Recording? then
      if x.bodies[x.body].record == [] then x.(body := x.bodies[x.body].delegate)
      else x.(body := |x.bodies|, bodies := x.bodies + [Buffer(x.bodies[x.body].record)])
    else x
  }

  /** What the next handler does to its response writer. */
  datatype NextOp = NextStatus(code: uint32) | NextWrite(data: bytes) | NextHeaders(headers: HeaderMap)

  function DoNext(x: State, op: NextOp): State {
    match op
    case NextStatus(code) => SetStatus(x, code)
    case NextHeaders(h) => x.(responseHeaders := h)
    case NextWrite(d) =>
      match x.w
      case Buffering(_, _) => x.(w := x.w.(body := x.w.body + d))
      case Plain => x.(sent := x.sent + [Data(d, x.responseHeaders)])
  }

  function RunNext(x: State, ops: seq<NextOp>): State
    decreases |ops|
  {
    if ops == [] then x else RunNext(DoNext(x, ops[0]), ops[1..])
  }

  /** What a release sends: a status if one was set, a body if there is one. */
  function Released(status: uint32, body: bytes, headers: HeaderMap): seq<Sent> {
    (if status != 0 then [Status(status, headers)] else [])
    + (if body != [] then [Data(body, headers)] else [])
  }

  /** release of handler/nethttp/buffer.go */
  function Release(x: State): State {
    match x.w
    case Plain => x
    case Buffering(status, body) => x.(sent := x.sent + Released(status, body, x.responseHeaders))
  }

  /** handleErr writes to the underlying writer at once. */
  function SendError(x: State, message: bytes): State {
    x.(sent := x.sent + [Status(500, x.responseHeaders), Data(message, x.responseHeaders)])
  }

  /** A guest export: the calls it makes and, if none of them traps, how it ends. */
  datatype Script = Script(calls: seq<Call>, ret: Ret)

  function EndOf(r: Reply, ret: Ret): Ret {
    if r.answer.Panic? then Trapped else ret
  }

  /** HandleRequest, as far as this request's own state goes. */
  function HandleRequest(x: State, guest: Script): (State, Ret) {
    var r := Calls(x, guest.calls);
    var ret := EndOf(r, guest.ret);
    (if CtxNext(ret) != 0 then CloseRequest(r.x) else Close(r.x), ret)
  }

  /** HandleResponse; a request state without a guest panics before any call. */
  function HandleResponse(x: State, guest: Script): (State, Ret) {
    var y := x.(afterNext := true);
    if y.guest.None? then (Close(y), Trapped)
    else
      var r := Calls(y, guest.calls);
      (Close(r.x), EndOf(r, guest.ret))
  }

  /** Everything that happens to a request from outside the host. */
  datatype Environment = Environment(
    request: Script,
    closeFails: bool,
    message: bytes,
    next: seq<NextOp>,
    response: Script)

  /** A new requestState for a pooled guest: both layers start from the features
      of the middleware. */
  function Begin(features: Features, guest: nat, body: Body, verb: bytes, uri: bytes, headers: HeaderMap): State {
    HostEnable(
      State(false, features, None, None, None, None, Some(guest),
            {}, Plain, 0, [body], verb, uri, headers, map[], [], 0, [], []),
      features)
  }

  /** ServeHTTP up to the point where it knows whether to call the next handler. */
  function RequestPhase(x: State, env: Environment): (State, Ret) {
    var (y, ret) := HandleRequest(x, env.request);
    (if ret.Trapped? || env.closeFails then SendError(y, env.message) else y, ret)
  }

  /** The state in which the guest's handle_response starts. */
  function BeforeResponse(x: State, env: Environment): State {
    RunNext(ResetBody(RequestPhase(x, env).0), env.next)
  }

  /** ServeHTTP after newRequestState. The deferred release is armed only if the
      writer is buffering when HandleRequest returns. */
  function ServeHttp(x: State, env: Environment): (State, bool) {
    var (z, ret) := RequestPhase(x, env);
    if Lo(CtxNext(ret)) == 0 then (Release(z), false)
    else
      var (u, ret2) := HandleResponse(BeforeResponse(x, env), env.response);
      (if z.w.Buffering? then Release(u) else u, ret2.Trapped?)
  }

  // ---- What each kind of call leaves alone ----

  lemma ReadRequestFrame(x: State, limit: uint32, inMemory: bool, c: Chunking)
    ensures var y := OnReadRequest(x, limit, inMemory, c).x;
            y == x.(requestReader := y.requestReader, bodies := y.bodies, acquired := y.acquired)
  {
  }

  lemma ReadResponseFrame(x: State, limit: uint32, inMemory: bool)
    ensures var y := OnReadResponse(x, limit, inMemory).x;
            y == x.(responseReader := y.responseReader, acquired := y.acquired)
  {
  }

  lemma ReadFrame(x: State, c: Call)
    requires c.ReadBody?
    ensures var y := Step(x, c).x;
            y == x.(requestReader := y.requestReader, responseReader := y.responseReader,
                    bodies := y.bodies, acquired := y.acquired)
    ensures c.body != RequestBody ==>
              Step(x, c).x.requestReader == x.requestReader && Step(x, c).x.bodies == x.bodies
    ensures c.body != ResponseBody ==> Step(x, c).x.responseReader == x.responseReader
  {
    match c.body
    case RequestBody =>
      ReadRequestFrame(x, c.limit, c.inMemory, c.chunking);
      assert Step(x, c) == OnReadRequest(x, c.limit, c.inMemory, c.chunking);
    case ResponseBody =>
      ReadResponseFrame(x, c.limit, c.inMemory);
      assert Step(x, c) == OnReadResponse(x, c.limit, c.inMemory);
    case UnknownBody =>
  }

  lemma RequestWriteFrame(x: State, c: Call)
    requires c.WriteBody? && c.body != ResponseBody
    ensures var y := Step(x, c).x;
            y == x.(requestWriter := y.requestWriter, body := y.body, bodies := y.bodies)
    ensures x.afterNext ==> Step(x, c).x == x
  {
  }

  lemma ResponseWriteFrame(x: State, c: Call)
    requires c.WriteBody? && c.body == ResponseBody
    ensures var y := Step(x, c).x;
            y == x.(responseWriter := y.responseWriter, w := y.w, sent := y.sent)
    ensures x.w.Buffering? <==> Step(x, c).x.w.Buffering?
    ensures !BeforeNextOrFeature(x, BUFFER_RESPONSE) ==> Step(x, c).x == x
  {
    assert Step(x, c) == OnWriteResponse(x, c.data);
    var y := OpenResponseWriter(x);
    assert y == x.(responseWriter := y.responseWriter, w := y.w);
    assert x.w.Buffering? <==> y.w.Buffering?;
  }

  predicate ChangesHead(c: Call) {
    c.SetMethod? || c.SetUri? || c.SetHeader? || c.AddHeader? || c.RemoveHeader?
  }

  lemma HeadFrame(x: State, c: Call)
    requires ChangesHead(c)
    ensures var y := Step(x, c).x;
            y == x.(verb := y.verb, uri := y.uri, requestHeaders := y.requestHeaders,
                    responseHeaders := y.responseHeaders)
    ensures x.afterNext ==> Step(x, c).x == x.(responseHeaders := Step(x, c).x.responseHeaders)
    ensures x.afterNext && !BeforeNextOrFeature(x, BUFFER_RESPONSE) ==> Step(x, c).x == x
  {
  }

  lemma StatusFrame(x: State, c: Call)
    requires c.SetStatusCode? || c.GetStatusCode? || c.Observe?
    ensures var y := Step(x, c).x; y == x.(w := y.w, sent := y.sent)
    ensures x.w.Buffering? <==> Step(x, c).x.w.Buffering?
    ensures !BeforeNextOrFeature(x, BUFFER_RESPONSE) ==> Step(x, c).x == x
  {
  }

  lemma EnableFrame(x: State, f: Features)
    ensures var y := Enable(x, f).x;
            y == x.(features := y.features, hostFeatures := y.hostFeatures,
                    w := y.w, body := y.body, bodies := y.bodies)
    ensures x.w.Buffering? ==> Enable(x, f).x.w == x.w
    ensures !IsEnabled(WithEnabled(x.hostFeatures, WithEnabled(x.features, f)), BUFFER_RESPONSE) ==>
              Enable(x, f).x.w == x.w
  {
  }
}
