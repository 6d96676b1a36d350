/** What a guest reads of the response body. One reader serves both of its exports:
    it keeps the bytes there are when it is opened, and neither the guest's writes
    nor the next handler's reach it. */
module Snapshots {
  import opened Abi
  import opened FeatureBits
  import opened GuestLog
  import opened Exchange
  import opened ResponseFlow

  /** What one call reads of the response body. */
  function ResponseChunk(c: Call, answer: Answer): bytes {
    if c.ReadBody? && c.body == ResponseBody && answer.Chunk? then answer.data else []
  }

  /** The chunks of the response body a guest reads. */
  function ResponseChunks(x: State, calls: seq<Call>): bytes
    decreases |calls|
  {
    if calls == [] then []
    else
      var r := Step(x, calls[0]);
      ResponseChunk(calls[0], r.answer) + (if r.answer.Panic? then [] else ResponseChunks(r.x, calls[1..]))
  }

  /** The bytes the reader has, or will have when one of the calls opens it. */
  function Snapshotted(x: State, calls: seq<Call>): Option<bytes>
    decreases |calls|
  {
    if x.responseReader.Some? then Some(x.responseReader.value.rest)
    else if calls == [] then None
    else
      var r := Step(x, calls[0]);
      if r.x.responseReader.Some? then Some(if x.w.Buffering? then x.w.body else [])
      else if r.answer.Panic? then None
      else Snapshotted(r.x, calls[1..])
  }

  function Unread(x: State): bytes {
    if x.responseReader.Some? then x.responseReader.value.rest else []
  }

  /** A call takes its chunk off the snapshot and does nothing else to it. */
  lemma SnapshotStep(x: State, c: Call)
    requires x.responseReader.Some?
    ensures var r := Step(x, c);
            && r.x.responseReader.Some? && r.x.responseReader.value.number == x.responseReader.value.number
            && ResponseChunk(c, r.answer) + r.x.responseReader.value.rest == x.responseReader.value.rest
  {
    match c
    case EnableFeatures(f) => EnableFrame(x, f);
    case ReadBody(kind, limit, inMemory, chunking) =>
      if kind == ResponseBody {
        assert Step(x, c) == OnReadResponse(x, limit, inMemory);
      } else {
        ReadFrame(x, c);
      }
    case WriteBody(kind, _) =>
      if kind == ResponseBody {
        ResponseWriteFrame(x, c);
      } else {
        RequestWriteFrame(x, c);
      }
    case _ =>
      if ChangesHead(c) {
        HeadFrame(x, c);
      } else {
        StatusFrame(x, c);
      }
  }

  /** Only a read opens the reader, and it takes the body of that moment. */
  lemma OpeningStep(x: State, c: Call)
    requires x.responseReader.None?
    ensures var r := Step(x, c);
            if r.x.responseReader.Some?
            then x.w.Buffering? && ResponseChunk(c, r.answer) + r.x.responseReader.value.rest == x.w.body
            else ResponseChunk(c, r.answer) == []
  {
    if c.ReadBody? && c.body == ResponseBody {
      assert Step(x, c) == OnReadResponse(x, c.limit, c.inMemory);
      if x.w.Buffering? {
        var y := OpenResponseReader(x);
        assert BeforeNextOrFeature(x, BUFFER_RESPONSE) ==> Step(x, c) == Step(y, c);
        SnapshotStep(y, c);
      }
    } else {
      NoOpening(x, c);
    }
  }

  lemma NoOpening(x: State, c: Call)
    requires !(c.ReadBody? && c.body == ResponseBody)
    ensures Step(x, c).x.responseReader == x.responseReader
  {
    match c
    case EnableFeatures(f) => EnableFrame(x, f);
    case ReadBody(_, _, _, _) => ReadFrame(x, c);
    case WriteBody(kind, _) =>
      if kind == ResponseBody {
        ResponseWriteFrame(x, c);
      } else {
        RequestWriteFrame(x, c);
      }
    case _ =>
      if ChangesHead(c) {
        HeadFrame(x, c);
      } else {
        StatusFrame(x, c);
      }
  }

  /** Over the calls of one export, whatever is written, reset or set in between, the
      chunks read and what is left unread are exactly the snapshot. */
  lemma {:induction false} ReadsAndRest(x: State, calls: seq<Call>)
    ensures var y := Calls(x, calls).x;
            match Snapshotted(x, calls)
            case None => ResponseChunks(x, calls) == [] && y.responseReader.None?
            case Some(body) => y.responseReader.Some? && ResponseChunks(x, calls) + Unread(y) == body
    decreases |calls|
  {
    if calls != [] {
      var c, r := calls[0], Step(x, calls[0]);
      if x.responseReader.Some? {
        SnapshotStep(x, c);
      } else {
        OpeningStep(x, c);
      }
      if r.answer.Panic? {
        assert ResponseChunk(c, r.answer) + [] == ResponseChunk(c, r.answer);
      } else {
        ReadsAndRest(r.x, calls[1..]);
        Regroup(ResponseChunk(c, r.answer), ResponseChunks(r.x, calls[1..]), Unread(Calls(r.x, calls[1..]).x));
      }
    } else {
      assert [] + Unread(x) == Unread(x);
    }
  }

  lemma Regroup(a: bytes, b: bytes, c: bytes)
    ensures (a + b) + c == a + (b + c)
    ensures a == [] ==> a + b == b
  {
  }

  // ---- Whole requests ----

  /** The state at the end of the guest's last export, before the final Close. */
  function LastState(x: State, env: Environment): State {
    if Proceeds(x, env) then Calls(ResponseStart(x, env), env.response.calls).x
    else Calls(x, env.request.calls).x
  }

  /** Everything a guest reads of the response in both of its exports. */
  function AllChunks(x: State, env: Environment): bytes {
    ResponseChunks(x, env.request.calls)
    + (if Proceeds(x, env) then ResponseChunks(ResponseStart(x, env), env.response.calls) else [])
  }

  /** The body as it was at the first response read, wherever in the request that is. */
  function BodyAtFirstRead(x: State, env: Environment): Option<bytes> {
    var inRequest := Snapshotted(x, env.request.calls);
    if inRequest.Some? || !Proceeds(x, env) then inRequest
    else Snapshotted(ResponseStart(x, env), env.response.calls)
  }

  /** Neither the end of handle_request nor the next handler touches the reader. */
  lemma ReaderSurvivesNext(x: State, env: Environment)
    requires Proceeds(x, env)
    ensures ResponseStart(x, env).responseReader == Calls(x, env.request.calls).x.responseReader
  {
    var z := RequestPhase(x, env).0;
    assert z.responseReader == Calls(x, env.request.calls).x.responseReader;
    ResetFrame(z);
    NextKeepsReader(ResetBody(z), env.next);
  }

  lemma {:induction false} NextKeepsReader(x: State, ops: seq<NextOp>)
    ensures RunNext(x, ops).responseReader == x.responseReader
    decreases |ops|
  {
    if ops != [] {
      NextKeepsReader(DoNext(x, ops[0]), ops[1..]);
    }
  }

  /** Over a whole request, all that read_body gives of the response, in both exports,
      and what is unread at the end are exactly the body at the first read. */
  lemma ReadsOfARequest(x: State, env: Environment)
    ensures match BodyAtFirstRead(x, env)
            case None => AllChunks(x, env) == [] && LastState(x, env).responseReader.None?
            case Some(body) => AllChunks(x, env) + Unread(LastState(x, env)) == body
  {
    ReadsAndRest(x, env.request.calls);
    if Proceeds(x, env) {
      ReaderSurvivesNext(x, env);
      ReadsAndRest(ResponseStart(x, env), env.response.calls);
      Regroup(ResponseChunks(x, env.request.calls),
              ResponseChunks(ResponseStart(x, env), env.response.calls), Unread(LastState(x, env)));
    } else {
      assert ResponseChunks(x, env.request.calls) + [] == ResponseChunks(x, env.request.calls);
    }
  }

  // ---- The EOF flag ----

  predicate ReadsResponse(c: Call) {
    c.ReadBody? && c.body == ResponseBody && c.limit > 0 && c.inMemory
  }

  /** What a reader has or would have. */
  function Ahead(x: State): bytes {
    if x.responseReader.Some? then x.responseReader.value.rest else if x.w.Buffering? then x.w.body else []
  }

  predicate CanRead(x: State) {
    BeforeNextOrFeature(x, BUFFER_RESPONSE) && (x.responseReader.Some? || x.w.Buffering?)
  }

  lemma ReadStep(x: State, c: Call)
    requires CanRead(x) && ReadsResponse(c)
    ensures var r := Step(x, c);
            && r.answer.Chunk? && CanRead(r.x) && r.x.responseReader.Some?
            && r.answer.data + Ahead(r.x) == Ahead(x)
            && (r.answer.eof <==> |r.answer.data| < c.limit) && (r.answer.eof ==> Ahead(r.x) == [])
  {
    assert Step(x, c) == OnReadResponse(x, c.limit, c.inMemory) == ReadOpened(OpenResponseReader(x), c.limit, true);
  }

  /** A chunk of the response that does not fill its buffer is flagged, and no other:
      with it the guest has read all there was at its first read, whatever it did in
      between. */
  lemma EofMeansAll(x: State, calls: seq<Call>, c: Call)
    requires !Calls(x, calls).answer.Panic? && CanRead(Calls(x, calls).x) && ReadsResponse(c)
    ensures var answer := Step(Calls(x, calls).x, c).answer;
            && answer.Chunk? && (answer.eof <==> |answer.data| < c.limit)
            && Snapshotted(x, calls + [c]).Some?
            && (answer.eof ==> ResponseChunks(x, calls + [c]) == Snapshotted(x, calls + [c]).value)
  {
    ReadStep(Calls(x, calls).x, c);
    ReadsAndRest(x, calls + [c]);
    CallsAppend(x, calls, [c]);
    var y := Calls(x, calls).x;
    assert [c][1..] == [];
    assert Calls(y, [c]) == Calls(Step(y, c).x, []);
  }

  /** A guest that reads the response until the flag is set has all of it, with one call
      more than it has bytes at the latest. */
  lemma {:induction false} ReadsToEof(x: State, calls: seq<Call>) returns (k: nat)
    requires CanRead(x) && |calls| > |Ahead(x)| && forall c :: c in calls ==> ReadsResponse(c)
    ensures k < |calls| && !Calls(x, calls[..k]).answer.Panic?
    ensures Step(Calls(x, calls[..k]).x, calls[k]).answer.Chunk?
    ensures Step(Calls(x, calls[..k]).x, calls[k]).answer.eof && ResponseChunks(x, calls[..k + 1]) == Ahead(x)
    decreases |calls|
  {
    var c, r := calls[0], Step(x, calls[0]);
    assert c in calls;
    ReadStep(x, c);
    if r.answer.eof {
      k := 0;
      assert calls[..0] == [] && calls[..1] == [c] && [c][1..] == [];
      assert ResponseChunks(x, [c]) == r.answer.data + ResponseChunks(r.x, []);
      assert r.answer.data + [] == r.answer.data;
    } else {
      assert forall d :: d in calls[1..] ==> d in calls;
      var j := ReadsToEof(r.x, calls[1..]);
      k := j + 1;
      assert calls[..k][0] == c && calls[..k][1..] == calls[1..][..j];
      assert calls[..k + 1][0] == c && calls[..k + 1][1..] == calls[1..][..j + 1];
    }
  }

  // ---- Reading what the next handler produced ----

  /** Calls that leave the response body alone, apart from reading it. */
  predicate OnlyReads(calls: seq<Call>) {
    forall c :: c in calls ==> !(c.WriteBody? && c.body == ResponseBody)
  }

  /** Reading byte by byte gets all of the snapshot. */
  lemma {:induction false} ReadAll(x: State) returns (calls: seq<Call>)
    requires x.responseReader.Some? && BeforeNextOrFeature(x, BUFFER_RESPONSE)
    ensures OnlyReads(calls) && ResponseChunks(x, calls) == x.responseReader.value.rest
    decreases |x.responseReader.value.rest|
  {
    var rest := x.responseReader.value.rest;
    if rest == [] {
      calls := [];
    } else {
      var c := ReadBody(ResponseBody, 1, true, Chunking(false, 0));
      var r := Step(x, c);
      assert r == ReadOpened(x, 1, true);
      var more := ReadAll(r.x);
      calls := [c] + more;
      assert calls[1..] == more && rest == rest[..1] + rest[1..];
    }
  }

  /** The guest has read the response to its end. */
  predicate ReadToTheEnd(x: State, calls: seq<Call>) {
    var y := Calls(x, calls).x;
    y.responseReader.Some? && y.responseReader.value.rest == []
  }

  /** What the documentation promises for handle_response is to read the body there is
      when it starts. Every guest that does not write it first and reads to the end has
      read that body, all of it, if and only if handle_request opened no reader, or left
      unread exactly that body. */
  lemma ReadsWhatNextProducedIff(x: State, env: Environment)
    requires BufferedFromStart(x) && Proceeds(x, env)
    ensures var u := ResponseStart(x, env);
            u.w.Buffering? &&
            ((forall calls :: OnlyReads(calls) && ReadToTheEnd(u, calls) ==> ResponseChunks(u, calls) == u.w.body)
             <==> u.responseReader.None? || u.responseReader.value.rest == u.w.body)
  {
    var u := ResponseStart(x, env);
    StartIsBuffered(x, env);
    if u.responseReader.None? || u.responseReader.value.rest == u.w.body {
      forall calls | OnlyReads(calls) && ReadToTheEnd(u, calls) ensures ResponseChunks(u, calls) == u.w.body {
        ReadsAndRest(u, calls);
        if u.responseReader.None? {
          SnapshotOfUnwritten(u, calls);
        }
      }
    } else {
      var calls := ReadAll(u);
      ReadsAndRest(u, calls);
      assert ReadToTheEnd(u, calls);
    }
  }

  /** A reader opened before any write has the body there was. */
  lemma {:induction false} SnapshotOfUnwritten(x: State, calls: seq<Call>)
    requires OnlyReads(calls) && x.responseReader.None? && x.w.Buffering?
    ensures Snapshotted(x, calls) in {None, Some(x.w.body)}
    decreases |calls|
  {
    if calls != [] {
      var c, r := calls[0], Step(x, calls[0]);
      BodyOnlyWritten(x, c);
      if r.x.responseReader.None? && !r.answer.Panic? {
        SnapshotOfUnwritten(r.x, calls[1..]);
      }
    }
  }

  lemma BodyOnlyWritten(x: State, c: Call)
    requires x.w.Buffering? && !(c.WriteBody? && c.body == ResponseBody)
    ensures Step(x, c).x.w.Buffering? && Step(x, c).x.w.body == x.w.body
  {
    match c
    case EnableFeatures(f) => EnableFrame(x, f);
    case ReadBody(_, _, _, _) => ReadFrame(x, c);
    case WriteBody(_, _) => RequestWriteFrame(x, c);
    case _ =>
      if ChangesHead(c) {
        HeadFrame(x, c);
      }
  }

  const LOOK := ReadBody(ResponseBody, 1, true, Chunking(false, 0))

  /** A guest that looks at the response once in each export; next writes "hi". */
  const EARLY_LOOK := Environment(Script([LOOK], Returned(1)), false, [], [NextWrite([104, 105])],
                                  Script([LOOK], Returned(0)))

  lemma LookOpens(x: State)
    requires BufferedFromStart(x) && x.responseReader.None?
    ensures var r := Calls(x, [LOOK]);
            && !r.answer.Panic? && r.x == Step(x, LOOK).x && r.x.w == Buffering(0, [])
            && r.x.responseReader.Some? && r.x.responseReader.value.rest == []
  {
    assert Step(x, LOOK) == ReadOpened(OpenResponseReader(x), 1, true);
    assert [LOOK][1..] == [];
    assert Calls(x, [LOOK]) == Calls(Step(x, LOOK).x, []);
  }

  lemma NextWritesHi(x: State)
    requires x.w == Buffering(0, [])
    ensures RunNext(x, EARLY_LOOK.next).w == Buffering(0, [104, 105])
  {
    assert EARLY_LOOK.next[1..] == [] && [] + [104, 105] == [104, 105];
    assert RunNext(x, EARLY_LOOK.next) == RunNext(DoNext(x, EARLY_LOOK.next[0]), []);
  }

  /** It fails for that guest: its reader is at the end of an empty body, and reads that
      in handle_response, while "hi" is in the buffer. */
  lemma EarlyReadHidesNext(x: State)
    requires BufferedFromStart(x) && x.responseReader.None?
    ensures var u := ResponseStart(x, EARLY_LOOK);
            && Proceeds(x, EARLY_LOOK) && u.w == Buffering(0, [104, 105])
            && u.responseReader.Some? && u.responseReader.value.rest == []
            && Step(u, LOOK).answer == Chunk([], true)
  {
    LookOpens(x);
    var z := RequestPhase(x, EARLY_LOOK).0;
    assert Lo(1) == 1;
    assert Proceeds(x, EARLY_LOOK);
    assert z.w == Buffering(0, []);
    ResetFrame(z);
    NextWritesHi(ResetBody(z));
    ReaderSurvivesNext(x, EARLY_LOOK);
    StartIsBuffered(x, EARLY_LOOK);
    var u := ResponseStart(x, EARLY_LOOK);
    assert Step(u, LOOK) == ReadOpened(u, 1, true);
  }
}
