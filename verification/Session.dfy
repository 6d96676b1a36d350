/** The objects behind one request, and the methods that carry out on them what module
    Exchange says of values: the two request states, the request's bodies, the buffering
    response writer whose body is a Go slice, and the reader that shares its array. */
module Session {
  import opened Abi
  import opened FeatureBits
  import opened GuestLog
  import opened BodyStream
  import opened RequestBodies
  import opened Exchange

  /** bufferingResponseWriter. The body is the slice data[..length] with capacity
      data.Length; nil is a slice of capacity zero. */
  class ResponseBuffer {
    var statusCode: uint32
    var data: array<byte>
    var length: nat
    ghost var body: bytes

    constructor ()
      ensures Valid() && statusCode == 0 && body == [] && fresh(data)
    {
      statusCode, data, length, body := 0, new byte[0], 0, [];
    }

    ghost predicate Valid()
      reads this, data
    {
      length <= data.Length && body == data[..length]
    }

    /** w.body = append(w.body, bytes...): in place while the capacity lasts, else
        into a new array, whose capacity is the runtime's choice. */
    method Write(bytes: bytes)
      requires Valid()
      modifies this`data, this`length, this`body, data
      ensures Valid() && body == old(body) + bytes
      ensures data == old(data) || fresh(data)
      ensures length >= old(length)
      ensures forall i :: 0 <= i < old(length) ==> old(data)[i] == old(data[i])
    {
      if length + |bytes| <= data.Length {
        forall i | 0 <= i < |bytes| {
          data[length + i] := bytes[i];
        }
      } else {
        var capacity := Grow(length + |bytes|);
        var grown := new byte[capacity];
        forall i | 0 <= i < length + |bytes| {
          grown[i] := if i < length then data[i] else bytes[i - length];
        }
        data := grown;
      }
      length, body := length + |bytes|, body + bytes;
    }

    method Grow(needed: nat) returns (capacity: nat)
      ensures capacity >= needed
    {
      capacity := needed + needed / 4;
    }

    /** bytes.NewReader(w.body): a reader of the bytes there are now, on the same array. */
    method Snapshot() returns (r: Reader)
      requires Valid()
      ensures fresh(r) && r.Valid() && r.exact && r.data == data && r.end == length && r.Rest() == body
    {
      r := new Reader(data, length, EOF, true, 0);
    }

    /** w.body = nil */
    method Reset()
      modifies this`data, this`length, this`body
      ensures Valid() && length == 0 && fresh(data) && body == []
    {
      data, length, body := new byte[0], 0, [];
    }
  }

  /** The guest's memory after read_body: nothing outside the buffer has changed, and
      the chunk is in it; a call that traps before it reads changes nothing. */
  ghost predicate InMemoryAs(mem: bytes, before: bytes, buf: nat, limit: nat, answer: Answer) {
    && |mem| == |before|
    && (forall i :: 0 <= i < |mem| && !(buf <= i < buf + limit) ==> mem[i] == before[i])
    && (match answer
        case Chunk(data, _) => |data| <= limit && buf + limit <= |mem| && mem[buf..buf + |data|] == data
        case Panic(cause) => cause != ReadFailed ==> mem == before
        case _ => true)
  }

  /** readBody on a bytes.Reader. */
  method ReadExact(mem: array<byte>, buf: uint32, limit: uint32, r: Reader) returns (answer: Answer)
    requires r.Valid() && r.exact && mem != r.data
    modifies r, mem
    ensures r.Valid()
    ensures var rest := old(r.Rest());
            var n := if InMemory(mem.Length, buf, limit) then Min(limit, |rest|) else 0;
            && r.Rest() == rest[n..]
            && answer == (if limit == 0 then Panic(BadArgument)
                          else if buf + limit > mem.Length then Panic(OutOfMemory)
                          else Chunk(rest[..n], |rest| < limit))
    ensures InMemoryAs(mem[..], old(mem[..]), buf, limit, answer)
  {
    ghost var rest, p := r.Rest(), r.pos;
    var out := BodyStream.ReadBody(mem, buf, limit, r);
    match out
    case Trap => answer := Panic(if limit == 0 then BadArgument else OutOfMemory);
    case Ok(v) =>
      SliceOfSlice(r.data[..], p, r.end, p, r.pos);
      answer := Chunk(mem[buf..buf + Lo(v)], Hi(v) == 1);
      Kept(mem[..], old(mem[..]), buf, buf + limit);
  }

  lemma Kept(mem: bytes, before: bytes, lo: nat, hi: nat)
    requires |mem| == |before| && lo <= hi <= |mem| && mem[..lo] == before[..lo] && mem[hi..] == before[hi..]
    ensures forall i :: 0 <= i < |mem| && !(lo <= i < hi) ==> mem[i] == before[i]
  {
    forall i | 0 <= i < |mem| && !(lo <= i < hi) ensures mem[i] == before[i] {
      if i < lo {
        assert mem[..lo][i] == before[..lo][i];
      } else {
        assert mem[hi..][i - hi] == before[hi..][i - hi];
      }
    }
  }

  /** The call that was carried out: for a read, whether the buffer lies in memory and
      how the stream chunked its data are not the guest's to say. */
  predicate CarriedOut(c: Call, done: Call, size: nat, buf: nat) {
    if c.ReadBody?
    then done.ReadBody? && done.body == c.body && done.limit == c.limit && (done.inMemory <==> buf + c.limit <= size)
    else done == c
  }

  predicate AllCarriedOut(calls: seq<Call>, done: seq<Call>, size: nat, bufs: seq<uint32>) {
    |calls| == |done| == |bufs| && forall i :: 0 <= i < |calls| ==> CarriedOut(calls[i], done[i], size, bufs[i])
  }

  /** The calls after a trap are not carried out; any chunking will do for them. */
  function Imagined(calls: seq<Call>, size: nat, bufs: seq<uint32>): (done: seq<Call>)
    requires |bufs| == |calls|
    ensures AllCarriedOut(calls, done, size, bufs)
    decreases |calls|
  {
    if calls == [] then []
    else
      [if calls[0].ReadBody? then calls[0].(inMemory := bufs[0] + calls[0].limit <= size) else calls[0]]
      + Imagined(calls[1..], size, bufs[1..])
  }

  /** What happened in a request: what the environment says, with the calls as they were
      carried out. */
  predicate Happened(env: Environment, done: Environment, size: nat, bufs: seq<uint32>, bufs': seq<uint32>) {
    && done == env.(request := done.request, response := done.response)
    && done.request.ret == env.request.ret && done.response.ret == env.response.ret
    && AllCarriedOut(env.request.calls, done.request.calls, size, bufs)
    && AllCarriedOut(env.response.calls, done.response.calls, size, bufs')
  }

  class Session {
    // both: the request's body, and the reader and writer kept of it
    const request: RequestSide
    // handler/state.go
    var afterNext: bool
    var features: Features
    var responseReader: Reader?
    var responseReaderNumber: nat
    var responseWriter: Option<WriterRef>
    var guest: Option<nat>
    // handler/nethttp/middleware.go; w is null while it is the server's own writer
    var hostFeatures: Features
    var w: ResponseBuffer?
    var verb: bytes
    var uri: bytes
    var requestHeaders: HeaderMap
    // the server's response writer
    var responseHeaders: HeaderMap
    var sent: seq<Sent>
    // handles and guests given up
    var acquired: nat
    var closed: seq<nat>
    var putBack: seq<nat>
    ghost var unread: bytes

    ghost var Repr: set<object>

    /** The request's bodies and the response's objects are apart, and a snapshot that
        shares the writer's array lies within its length, so that appending in place
        never touches it. */
    ghost predicate Valid()
      reads this, Repr
    {
      && this in Repr && request in Repr && request.Repr <= Repr && this !in request.Repr && request.Valid()
      && (w != null ==>
            w in Repr && w.data in Repr && w !in request.Repr && w.data !in request.Repr && w.Valid())
      && (responseReader != null ==>
            && responseReader in Repr && responseReader.data in Repr
            && responseReader !in request.Repr && responseReader.data !in request.Repr
            && responseReader.Valid() && responseReader.exact && unread == responseReader.Rest()
            && (w != null && responseReader.data == w.data ==> responseReader.end <= w.length))
    }

    ghost function View(): State
      reads this, w, request
    {
      State(afterNext, features, request.Reading(), request.Writing(),
            if responseReader == null then None else Some(Snapshot(responseReaderNumber, unread)),
            responseWriter, guest,
            hostFeatures, if w == null then Plain else Buffering(w.statusCode, w.body),
            request.body.number, request.bodies, verb, uri, requestHeaders, responseHeaders, sent,
            acquired, closed, putBack)
    }

    /** newRequestState, and the request state HandleRequest creates; the body is the
        server's stream. */
    constructor (features: Features, guest: nat, stream: Reader, verb: bytes, uri: bytes, headers: HeaderMap)
      requires stream.Valid()
      ensures Valid() && fresh(Repr - {stream, stream.data})
      ensures View() == Begin(features, guest, Stream(stream.Rest(), stream.fate == Failure), verb, uri, headers)
    {
      request := new RequestSide(stream);
      afterNext, this.features, this.guest := false, features, Some(guest);
      responseReader, responseReaderNumber, responseWriter := null, 0, None;
      hostFeatures, w := {}, null;
      this.verb, this.uri, requestHeaders := verb, uri, headers;
      responseHeaders, sent, acquired, closed, putBack := map[], [], 0, [], [];
      new;
      Repr := {this} + request.Repr;
      HostEnableFeatures(features);
    }

    // ---- handler/nethttp ----

    /** s.r.Body = &bufferingRequestBody{delegate: s.r.Body} */
    method WrapRequestBody()
      requires Valid()
      modifies request`body, request`objects, request`bodies, request`Repr, this`Repr
      ensures Valid() && fresh(Repr - old(Repr)) && View() == WrapBody(old(View()))
    {
      request.Wrap();
      Repr := Repr + request.Repr;
    }

    /** s.w = &bufferingResponseWriter{delegate: s.w}, unless it is one already */
    method WrapResponseWriter()
      requires Valid()
      modifies this`w, this`Repr
      ensures Valid() && fresh(Repr - old(Repr))
      ensures View() == WrapWriter(old(View()))
    {
      if w == null {
        w := new ResponseBuffer();
        Repr := Repr + {w, w.data};
      }
    }

    method MarkHostFeatures(f: Features)
      requires Valid()
      modifies this`hostFeatures
      ensures Valid() && hostFeatures == WithEnabled(old(hostFeatures), f)
      ensures View() == old(View()).(hostFeatures := WithEnabled(old(View()).hostFeatures, f))
    {
      hostFeatures := WithEnabled(hostFeatures, f);
    }

    /** enableFeatures of handler/nethttp/middleware.go */
    method HostEnableFeatures(f: Features)
      requires Valid()
      modifies this`hostFeatures, request`body, request`objects, request`bodies, request`Repr, this`w, this`Repr
      ensures Valid() && View() == HostEnable(old(View()), f)
      ensures fresh(Repr - old(Repr))
    {
      MarkHostFeatures(f);
      if IsEnabled(f, BUFFER_REQUEST) {
        WrapRequestBody();
      }
      if IsEnabled(hostFeatures, BUFFER_RESPONSE) {
        WrapResponseWriter();
      }
    }

    /** The part of handleNext before the next handler runs. */
    method ResetRequestBody()
      requires Valid()
      modifies request`body, request`objects, request`bodies, request`Repr, this`Repr
      ensures Valid() && fresh(Repr - old(Repr)) && View() == ResetBody(old(View()))
    {
      request.HandOn();
      Repr := Repr + request.Repr;
    }

    /** Write of whichever writer s.w is. */
    method Write(data: bytes)
      requires Valid()
      modifies Repr
      ensures Valid() && fresh(Repr - old(Repr)) && View() == DoNext(old(View()), NextWrite(data))
    {
      if w != null {
        w.Write(data);
        Repr := Repr + {w.data};
      } else {
        sent := sent + [Data(data, responseHeaders)];
      }
    }

    /** WriteHeader of whichever writer s.w is. */
    method WriteHeader(code: uint32)
      requires Valid()
      modifies Repr
      ensures Valid() && Repr == old(Repr) && View() == SetStatus(old(View()), code)
    {
      if w != null {
        w.statusCode := code;
      } else {
        sent := sent + [Status(code, responseHeaders)];
      }
    }

    /** The next handler, whatever it does to its response writer. */
    method Next(ops: seq<NextOp>)
      requires Valid()
      modifies Repr
      ensures Valid() && fresh(Repr - old(Repr)) && View() == RunNext(old(View()), ops)
      decreases |ops|
    {
      if ops != [] {
        match ops[0] {
          case NextStatus(code) => WriteHeader(code);
          case NextHeaders(h) => responseHeaders := h;
          case NextWrite(d) => Write(d);
        }
        Next(ops[1..]);
      }
    }

    // ---- handler/middleware.go ----

    method MustBeforeNextOrFeature(feature: nat) returns (allowed: bool)
      ensures allowed == BeforeNextOrFeature(View(), feature)
    {
      allowed := !afterNext || IsEnabled(features, feature);
    }

    method MustHeaderMutable(kind: HeaderKind) returns (allowed: bool)
      ensures allowed == HeaderMutable(View(), kind)
    {
      match kind
      case RequestHeader => allowed := !afterNext;
      case RequestTrailer => allowed := !afterNext;
      case ResponseHeader => allowed := MustBeforeNextOrFeature(BUFFER_RESPONSE);
      case ResponseTrailer => allowed := MustBeforeNextOrFeature(BUFFER_RESPONSE);
      case UnknownHeader => allowed := false;
    }

    method MarkFeatures(on: Features)
      requires Valid()
      modifies this`features
      ensures Valid() && View() == old(View()).(features := on)
    {
      features := on;
    }

    method EnableFeatures(f: Features) returns (answer: Answer)
      requires Valid()
      modifies this`hostFeatures, request`body, request`objects, request`bodies, request`Repr, this`w, this`Repr
      modifies this`features
      ensures Valid() && fresh(Repr - old(Repr)) && Reply(View(), answer) == Enable(old(View()), f)
      ensures features == WithEnabled(old(features), f) && answer == Enabled(features)
    {
      var on := WithEnabled(features, f);
      HostEnableFeatures(on);
      MarkFeatures(on);
      answer := Enabled(on);
    }

    method SetMethod(text: Option<bytes>) returns (answer: Answer)
      requires Valid()
      modifies this`verb
      ensures Valid() && Reply(View(), answer) == OnSetMethod(old(View()), text)
    {
      if afterNext {
        return Panic(Gate);
      }
      if text.None? {
        return Panic(OutOfMemory);
      }
      if text.value == [] {
        return Panic(BadArgument);
      }
      verb := text.value;
      answer := Done;
    }

    method SetUri(text: Option<bytes>, parses: bool) returns (answer: Answer)
      requires Valid()
      modifies this`uri
      ensures Valid() && Reply(View(), answer) == OnSetUri(old(View()), text, parses)
    {
      if afterNext {
        return Panic(Gate);
      }
      if text.None? {
        return Panic(OutOfMemory);
      }
      if text.value == [] {
        uri := ['/' as int];
      } else if !parses {
        return Panic(BadArgument);
      } else {
        uri := text.value;
      }
      answer := Done;
    }

    method StoreRequestHeader(name: bytes, c: HeaderChange)
      requires Valid()
      modifies this`requestHeaders
      ensures Valid() && View() == Exchange.ChangeHeader(old(View()), RequestHeader, name, c)
    {
      requestHeaders := Changed(requestHeaders, name, c);
    }

    method StoreResponseHeader(kind: HeaderKind, name: bytes, c: HeaderChange)
      requires Valid() && kind != RequestHeader
      modifies this`responseHeaders
      ensures Valid() && View() == Exchange.ChangeHeader(old(View()), kind, name, c)
    {
      var change := if kind != ResponseHeader && c.Add? then Set(c.value) else c;
      responseHeaders := Changed(responseHeaders, name, change);
    }

    method ChangeHeader(kind: HeaderKind, name: Option<bytes>, c: Option<HeaderChange>) returns (answer: Answer)
      requires Valid()
      modifies this`requestHeaders, this`responseHeaders
      ensures Valid() && Reply(View(), answer) == OnHeader(old(View()), kind, name, c)
    {
      if name == Some([]) {
        return Panic(BadArgument);
      }
      var allowed := MustHeaderMutable(kind);
      if !allowed {
        return Panic(Gate);
      }
      if name.None? || c.None? {
        return Panic(OutOfMemory);
      }
      if kind == RequestHeader {
        StoreRequestHeader(name.value, c.value);
      } else {
        StoreResponseHeader(kind, name.value, c.value);
      }
      answer := Done;
    }

    method SetStatusCode(code: uint32) returns (answer: Answer)
      requires Valid()
      modifies Repr
      ensures Valid() && Repr == old(Repr) && Reply(View(), answer) == OnSetStatus(old(View()), code)
    {
      var allowed := MustBeforeNextOrFeature(BUFFER_RESPONSE);
      if !allowed {
        return Panic(Gate);
      }
      WriteHeader(code);
      answer := Done;
    }

    method GetStatusCode() returns (answer: Answer)
      requires Valid()
      ensures Reply(View(), answer) == OnGetStatus(View())
    {
      if w == null {
        return Panic(NotBuffering);
      }
      answer := StatusIs(if w.statusCode == 0 then 200 else w.statusCode);
    }

    /** The first write_body of the request makes a new buffer its body. */
    method OpenRequestBuffer()
      requires Valid()
      modifies request`writer, request`body, request`objects, request`bodies, request`Repr, this`Repr
      ensures Valid() && fresh(Repr - old(Repr)) && request.writer != null && View() == OpenRequestWriter(old(View()))
    {
      request.OpenWriter();
      Repr := Repr + request.Repr;
    }

    method WriteRequestBody(data: Option<bytes>) returns (answer: Answer)
      requires Valid()
      modifies Repr
      ensures Valid() && fresh(Repr - old(Repr)) && Reply(View(), answer) == OnWriteRequest(old(View()), data)
    {
      if afterNext {
        return Panic(Gate);
      }
      OpenRequestBuffer();
      if data.None? {
        return Panic(OutOfMemory);
      }
      request.Write(data.value);
      answer := Done;
    }

    /** The first read_body of the request keeps the body as it is at that moment. */
    method OpenBodyReader()
      requires Valid()
      modifies request`reader, request`readerNumber, this`acquired
      ensures Valid() && request.reader != null && View() == OpenRequestReader(old(View()))
    {
      var first := request.reader == null;
      request.OpenReader(acquired);
      if first {
        acquired := acquired + 1;
      }
    }

    /** Reads the body through however many wrappers, into the guest's memory. */
    method ReadRequestBody(mem: array<byte>, buf: uint32, limit: uint32) returns (answer: Answer, ghost c: Chunking)
      requires Valid() && mem !in Repr
      modifies Repr, mem
      ensures Valid() && fresh(Repr - old(Repr))
      ensures Reply(View(), answer) == OnReadRequest(old(View()), limit, buf + limit <= mem.Length, c)
      ensures InMemoryAs(mem[..], old(mem[..]), buf, limit, answer)
    {
      c := Chunking(false, 0);
      var allowed := MustBeforeNextOrFeature(BUFFER_REQUEST);
      if !allowed {
        return Panic(Gate), c;
      }
      OpenBodyReader();
      answer, c := ReadOpenedBody(mem, buf, limit);
    }

    method ReadOpenedBody(mem: array<byte>, buf: uint32, limit: uint32) returns (answer: Answer, ghost c: Chunking)
      requires Valid() && mem !in Repr && request.reader != null
      modifies request.Repr, mem
      ensures Valid() && Repr == old(Repr)
      ensures Reply(View(), answer) ==
              if limit == 0 then Reply(old(View()), Panic(BadArgument))
              else if buf + limit > mem.Length then Reply(old(View()), Panic(OutOfMemory))
              else Exchange.ReadFrom(old(View()), old(request.reader).number, limit, c)
      ensures InMemoryAs(mem[..], old(mem[..]), buf, limit, answer)
    {
      answer, c := request.Read(mem, buf, limit);
    }

    /** The first write_body of the request resets a buffered response body. */
    method OpenWriter()
      requires Valid()
      modifies Repr
      ensures Valid() && fresh(Repr - old(Repr)) && View() == OpenResponseWriter(old(View()))
    {
      if responseWriter.None? {
        if w != null {
          w.Reset();
          responseWriter := Some(Buffered);
          Repr := Repr + {w.data};
        } else {
          responseWriter := Some(Direct);
        }
      }
    }

    method WriteResponseBody(data: Option<bytes>) returns (answer: Answer)
      requires Valid()
      modifies Repr
      ensures Valid() && fresh(Repr - old(Repr)) && Reply(View(), answer) == OnWriteResponse(old(View()), data)
      ensures answer == Done && old(w) == null ==> data.Some? && Told(old(sent), data.value)
    {
      var allowed := MustBeforeNextOrFeature(BUFFER_RESPONSE);
      if !allowed {
        return Panic(Gate);
      }
      OpenWriter();
      answer := WriteOpened(data);
    }

    /** The server has been told the data, after all it was told before. */
    ghost predicate Told(before: seq<Sent>, data: bytes)
      reads this
    {
      sent == before + [Data(data, responseHeaders)]
    }

    method WriteOpened(data: Option<bytes>) returns (answer: Answer)
      requires Valid() && responseWriter.Some?
      modifies Repr
      ensures Valid() && fresh(Repr - old(Repr)) && Reply(View(), answer) == ToResponseWriter(old(View()), data)
      ensures answer == Done && old(w) == null ==> data.Some? && Told(old(sent), data.value)
    {
      if data.None? {
        return Panic(OutOfMemory);
      }
      if responseWriter == Some(Buffered) {
        Write(data.value);
      } else {
        sent := sent + [Data(data.value, responseHeaders)];
      }
      answer := Done;
    }

    /** The first read_body of the response makes a reader that shares the array of
        the buffered body. */
    method OpenReader()
      requires Valid() && (responseReader != null || w != null)
      modifies this`responseReader, this`responseReaderNumber, this`unread, this`acquired, this`Repr
      ensures Valid() && responseReader != null && fresh(Repr - old(Repr))
      ensures View() == OpenResponseReader(old(View()))
    {
      if responseReader == null {
        NewReader();
      }
    }

    method NewReader()
      requires Valid() && responseReader == null && w != null
      modifies this`responseReader, this`responseReaderNumber, this`unread, this`acquired, this`Repr
      ensures Valid() && responseReader != null && fresh(responseReader) && Repr == old(Repr) + {responseReader}
      ensures View() == old(View()).(responseReader := Some(Snapshot(old(acquired), old(w.body))),
                                     acquired := old(acquired) + 1)
    {
      NumberReader();
      var r := w.Snapshot();
      Keep(r);
    }

    method NumberReader()
      requires Valid() && responseReader == null
      modifies this`responseReaderNumber, this`acquired
      ensures Valid() && responseReaderNumber == old(acquired)
      ensures View() == old(View()).(acquired := old(View()).acquired + 1)
    {
      responseReaderNumber, acquired := acquired, acquired + 1;
    }

    method Keep(r: Reader)
      requires Valid() && responseReader == null && w != null && r !in Repr
      requires r.Valid() && r.exact && r.data == w.data && r.end == w.length && r.Rest() == w.body
      modifies this`responseReader, this`unread, this`Repr
      ensures Valid() && responseReader == r && Repr == old(Repr) + {r}
      ensures View() == old(View()).(responseReader := Some(Snapshot(responseReaderNumber, old(w.body))))
    {
      responseReader, unread, Repr := r, w.body, Repr + {r};
    }

    /** Reads from the snapshot into the guest's memory. */
    method ReadSnapshot(mem: array<byte>, buf: uint32, limit: uint32) returns (answer: Answer)
      requires Valid() && mem !in Repr && responseReader != null
      modifies responseReader, mem, this`unread
      ensures Valid()
      ensures Reply(View(), answer) == ReadOpened(old(View()), limit, buf + limit <= mem.Length)
      ensures InMemoryAs(mem[..], old(mem[..]), buf, limit, answer)
    {
      answer := ReadExact(mem, buf, limit, responseReader);
      unread := responseReader.Rest();
    }

    method ReadResponseBody(mem: array<byte>, buf: uint32, limit: uint32) returns (answer: Answer)
      requires Valid() && mem !in Repr
      modifies Repr, mem
      ensures Valid() && fresh(Repr - old(Repr))
      ensures Reply(View(), answer) == OnReadResponse(old(View()), limit, buf + limit <= mem.Length)
      ensures InMemoryAs(mem[..], old(mem[..]), buf, limit, answer)
    {
      var allowed := MustBeforeNextOrFeature(BUFFER_RESPONSE);
      if !allowed {
        return Panic(Gate);
      }
      if responseReader == null && w == null {
        return Panic(NotBuffering);
      }
      OpenReader();
      assert mem[..] == old(mem[..]);
      answer := ReadSnapshot(mem, buf, limit);
    }

    /** The host function behind a guest's call. */
    method Do(c: Call, mem: array<byte>, buf: uint32) returns (answer: Answer, ghost done: Call)
      requires Valid() && mem !in Repr
      modifies Repr, mem
      ensures Valid() && fresh(Repr - old(Repr)) && CarriedOut(c, done, mem.Length, buf)
      ensures Reply(View(), answer) == Step(old(View()), done)
      ensures c.ReadBody? ==> InMemoryAs(mem[..], old(mem[..]), buf, c.limit, answer)
    {
      done := c;
      match c {
        case EnableFeatures(f) => answer := EnableFeatures(f);
        case Observe(ok) => answer := if ok then Done else Panic(BadArgument);
        case SetMethod(text) => answer := SetMethod(text);
        case SetUri(text, parses) => answer := SetUri(text, parses);
        case SetHeader(kind, name, v) =>
          answer := ChangeHeader(kind, name, if v.Some? then Some(Set(v.value)) else None);
        case AddHeader(kind, name, v) =>
          answer := ChangeHeader(kind, name, if v.Some? then Some(Add(v.value)) else None);
        case RemoveHeader(kind, name) => answer := ChangeHeader(kind, name, Some(Remove));
        case ReadBody(kind, limit, _, _) => answer, done := Read(kind, limit, mem, buf);
        case WriteBody(kind, data) => answer := WriteBody(kind, data);
        case GetStatusCode => answer := GetStatusCode();
        case SetStatusCode(code) => answer := SetStatusCode(code);
      }
    }

    method Read(kind: BodyKind, limit: uint32, mem: array<byte>, buf: uint32) returns (answer: Answer, ghost done: Call)
      requires Valid() && mem !in Repr
      modifies Repr, mem
      ensures Valid() && fresh(Repr - old(Repr))
      ensures done.ReadBody? && done == Call.ReadBody(kind, limit, buf + limit <= mem.Length, done.chunking)
      ensures Reply(View(), answer) == Step(old(View()), done)
      ensures InMemoryAs(mem[..], old(mem[..]), buf, limit, answer)
    {
      ghost var c := Chunking(false, 0);
      match kind {
        case RequestBody => answer, c := ReadRequestBody(mem, buf, limit);
        case ResponseBody => answer := ReadResponseBody(mem, buf, limit);
        case UnknownBody => answer := Panic(BadArgument);
      }
      done := Call.ReadBody(kind, limit, buf + limit <= mem.Length, c);
    }

    method WriteBody(kind: BodyKind, data: Option<bytes>) returns (answer: Answer)
      requires Valid()
      modifies Repr
      ensures Valid() && fresh(Repr - old(Repr))
      ensures Reply(View(), answer) == Step(old(View()), Call.WriteBody(kind, data))
    {
      match kind {
        case RequestBody => answer := WriteRequestBody(data);
        case ResponseBody => answer := WriteResponseBody(data);
        case UnknownBody => answer := Panic(BadArgument);
      }
    }

    /** A guest's calls, up to the first that traps. */
    method Run(calls: seq<Call>, mem: array<byte>, bufs: seq<uint32>) returns (answer: Answer, ghost done: seq<Call>)
      requires Valid() && mem !in Repr && |bufs| == |calls|
      modifies Repr, mem
      ensures Valid() && fresh(Repr - old(Repr)) && AllCarriedOut(calls, done, mem.Length, bufs)
      ensures Reply(View(), answer) == Calls(old(View()), done)
      decreases |calls|
    {
      if calls == [] {
        return Done, [];
      }
      ghost var first, rest;
      answer, first := Do(calls[0], mem, bufs[0]);
      if answer.Panic? {
        done := [first] + Imagined(calls[1..], mem.Length, bufs[1..]);
        return;
      }
      answer, rest := Run(calls[1..], mem, bufs[1..]);
      done := [first] + rest;
      assert done[1..] == rest;
    }

    // ---- handler/state.go ----

    method CloseRequest()
      requires Valid()
      modifies request`reader, request`writer, this`closed
      ensures Valid() && View() == Exchange.CloseRequest(old(View()))
    {
      assert closed + [] == closed;
      if request.reader != null {
        closed := closed + [request.readerNumber];
      }
      request.Close();
    }

    method PutGuest()
      requires Valid()
      modifies this`guest, this`putBack
      ensures Valid() && View() == Exchange.PutGuest(old(View()))
    {
      if guest.Some? {
        putBack, guest := putBack + [guest.value], None;
      }
    }

    method CloseResponse()
      requires Valid()
      modifies this`responseWriter, this`responseReader, this`closed
      ensures Valid() && View() == Exchange.CloseResponse(old(View()))
    {
      assert closed + [] == closed;
      responseWriter := None;
      if responseReader != null {
        closed, responseReader := closed + [responseReaderNumber], null;
      }
    }

    method Close()
      requires Valid()
      modifies this`guest, this`putBack, request`reader, request`writer, this`responseWriter
      modifies this`responseReader, this`closed
      ensures Valid() && View() == Exchange.Close(old(View()))
    {
      PutGuest();
      CloseRequest();
      CloseResponse();
    }

    // ---- ServeHTTP ----

    /** release of handler/nethttp/buffer.go */
    method Release()
      requires Valid()
      modifies this`sent
      ensures Valid() && View() == Exchange.Release(old(View()))
    {
      if w != null {
        ReleaseStatus();
        ReleaseBody();
      }
    }

    method ReleaseStatus()
      requires Valid() && w != null
      modifies this`sent
      ensures Valid() && View() == old(View()).(sent := sent)
      ensures sent == old(sent) + if w.statusCode != 0 then [Status(w.statusCode, responseHeaders)] else []
    {
      if w.statusCode != 0 {
        sent := sent + [Status(w.statusCode, responseHeaders)];
      }
    }

    method ReleaseBody()
      requires Valid() && w != null
      modifies this`sent
      ensures Valid() && View() == old(View()).(sent := sent)
      ensures sent == old(sent) + if w.body != [] then [Data(w.body, responseHeaders)] else []
    {
      if w.length != 0 {
        sent := sent + [Data(w.data[..w.length], responseHeaders)];
      }
    }

    method ReleaseIf(deferred: bool)
      requires Valid()
      modifies this`sent
      ensures Valid() && View() == if deferred then Exchange.Release(old(View())) else old(View())
    {
      if deferred {
        Release();
      }
    }

    method HandleRequest(calls: seq<Call>, ends: Ret, mem: array<byte>, bufs: seq<uint32>)
      returns (ret: Ret, ghost done: seq<Call>)
      requires Valid() && mem !in Repr && |bufs| == |calls|
      modifies Repr, mem
      ensures Valid() && fresh(Repr - old(Repr)) && AllCarriedOut(calls, done, mem.Length, bufs)
      ensures (View(), ret) == Exchange.HandleRequest(old(View()), Script(done, ends))
      ensures ret == if Calls(old(View()), done).answer.Panic? then Trapped else ends
    {
      var answer;
      answer, done := Run(calls, mem, bufs);
      ret := if answer.Panic? then Trapped else ends;
      if CtxNext(ret) != 0 {
        CloseRequest();
      } else {
        Close();
      }
    }

    method EnterResponse()
      requires Valid()
      modifies this`afterNext
      ensures Valid() && View() == old(View()).(afterNext := true)
    {
      afterNext := true;
    }

    method HandleResponse(calls: seq<Call>, ends: Ret, mem: array<byte>, bufs: seq<uint32>)
      returns (ret: Ret, ghost done: seq<Call>)
      requires Valid() && mem !in Repr && |bufs| == |calls|
      modifies Repr, mem
      ensures Valid() && fresh(Repr - old(Repr)) && AllCarriedOut(calls, done, mem.Length, bufs)
      ensures (View(), ret) == Exchange.HandleResponse(old(View()), Script(done, ends))
      ensures ret == if old(guest).None? || Calls(old(View()).(afterNext := true), done).answer.Panic?
                     then Trapped else ends
    {
      EnterResponse();
      if guest.None? {
        ret, done := Trapped, Imagined(calls, mem.Length, bufs);
      } else {
        var answer;
        answer, done := Run(calls, mem, bufs);
        ret := if answer.Panic? then Trapped else ends;
      }
      Close();
    }

    /** ServeHTTP up to the point where it knows whether to call the next handler. */
    method RequestPhase(env: Environment, mem: array<byte>, bufs: seq<uint32>) returns (ret: Ret, ghost done: seq<Call>)
      requires Valid() && mem !in Repr && |bufs| == |env.request.calls|
      modifies Repr, mem
      ensures Valid() && fresh(Repr - old(Repr)) && AllCarriedOut(env.request.calls, done, mem.Length, bufs)
      ensures var (y, end) := Exchange.HandleRequest(old(View()), env.request.(calls := done));
              ret == end && View() == if end.Trapped? || env.closeFails then SendError(y, env.message) else y
    {
      ret, done := HandleRequest(env.request.calls, env.request.ret, mem, bufs);
      if ret.Trapped? || env.closeFails {
        sent := sent + [Status(500, responseHeaders), Data(env.message, responseHeaders)];
      }
    }

    method HandleNext(ops: seq<NextOp>)
      requires Valid()
      modifies Repr
      ensures Valid() && fresh(Repr - old(Repr)) && View() == RunNext(ResetBody(old(View())), ops)
    {
      ResetRequestBody();
      Next(ops);
    }

    method ResponsePhase(env: Environment, mem: array<byte>, bufs: seq<uint32>)
      returns (panicked: bool, ghost done: seq<Call>)
      requires Valid() && mem !in Repr && |bufs| == |env.response.calls|
      modifies Repr, mem
      ensures Valid() && fresh(Repr - old(Repr)) && AllCarriedOut(env.response.calls, done, mem.Length, bufs)
      ensures var (u, ret) := Exchange.HandleResponse(RunNext(ResetBody(old(View())), env.next),
                                                      env.response.(calls := done));
              View() == u && panicked == ret.Trapped?
    {
      HandleNext(env.next);
      var ret;
      ret, done := HandleResponse(env.response.calls, env.response.ret, mem, bufs);
      panicked := ret.Trapped?;
    }

    /** The next handler and handle_response, if the guest wants them. */
    method NextIf(proceeds: bool, env: Environment, mem: array<byte>, bufs: seq<uint32>)
      returns (panicked: bool, ghost done: seq<Call>)
      requires Valid() && mem !in Repr && |bufs| == |env.response.calls|
      modifies Repr, mem
      ensures Valid() && fresh(Repr - old(Repr)) && AllCarriedOut(env.response.calls, done, mem.Length, bufs)
      ensures if !proceeds then View() == old(View()) && !panicked
              else var (u, ret) := Exchange.HandleResponse(RunNext(ResetBody(old(View())), env.next),
                                                           env.response.(calls := done));
                   View() == u && panicked == ret.Trapped?
    {
      if proceeds {
        panicked, done := ResponsePhase(env, mem, bufs);
      } else {
        panicked, done := false, Imagined(env.response.calls, mem.Length, bufs);
      }
    }

    /** The release is deferred if the writer is buffering when HandleRequest returns. */
    method ServeHTTP(env: Environment, mem: array<byte>, bufs: seq<uint32>, bufs': seq<uint32>)
      returns (panicked: bool, ghost done: Environment)
      requires Valid() && mem !in Repr && |bufs| == |env.request.calls| && |bufs'| == |env.response.calls|
      modifies Repr, mem
      ensures Valid() && fresh(Repr - old(Repr)) && Happened(env, done, mem.Length, bufs, bufs')
      ensures (View(), panicked) == ServeHttp(old(View()), done)
    {
      var ret;
      ghost var first, second;
      ret, first := RequestPhase(env, mem, bufs);
      var deferred := w != null;
      panicked, second := NextIf(Lo(CtxNext(ret)) != 0, env, mem, bufs');
      ReleaseIf(deferred);
      done := env.(request := env.request.(calls := first), response := env.response.(calls := second));
    }
  }
}

/** A whole request on its objects, with the results of the other modules. */
module Served {
  import opened Abi
  import opened FeatureBits
  import opened GuestLog
  import opened BodyStream
  import opened Exchange
  import opened ResponseFlow
  import opened Resources
  import S = Session

  /** The middleware's features, a guest, the server's stream and an environment in; the
      final state out. With response buffering on, the server's writer got exactly what
      the writes and status codes add up to; unless the guest's result leaks it, the
      guest went back once and every body reader was closed once. */
  method Serve(features: Features, guest: nat, stream: Reader, verb: bytes, uri: bytes, headers: HeaderMap,
               env: Environment, mem: array<byte>, bufs: seq<uint32>, bufs': seq<uint32>)
    returns (s: S.Session, panicked: bool, ghost done: Environment)
    requires stream.Valid() && mem != stream.data
    requires |bufs| == |env.request.calls| && |bufs'| == |env.response.calls|
    modifies mem, stream, stream.data
    ensures fresh(s) && s.Valid() && S.Happened(env, done, mem.Length, bufs, bufs')
    ensures var x := Begin(features, guest, Stream(old(stream.Rest()), stream.fate == Failure), verb, uri, headers);
            && (s.View(), panicked) == ServeHttp(x, done)
            && (IsEnabled(features, BUFFER_RESPONSE) ==>
                  s.sent == ErrorReport(x, done)
                            + Released(LastStatus(AllDeeds(x, done)), BodyOf(AllDeeds(x, done)), s.responseHeaders))
            && (!Leaks(CtxNext(Exchange.RequestPhase(x, done).1)) ==>
                  AllClosed(s.View()) && s.guest == None && s.putBack == [guest])
  {
    ghost var body := Stream(stream.Rest(), stream.fate == Failure);
    s := new S.Session(features, guest, stream, verb, uri, headers);
    panicked, done := s.ServeHTTP(env, mem, bufs, bufs');
    ghost var x := Begin(features, guest, body, verb, uri, headers);
    BeginFresh(features, guest, body, verb, uri, headers);
    EverythingIsGivenUp(x, done);
    if IsEnabled(features, BUFFER_RESPONSE) {
      BeginBuffered(features, guest, body, verb, uri, headers);
      ReleasedIsWhatWasWritten(x, done);
    }
  }
}
