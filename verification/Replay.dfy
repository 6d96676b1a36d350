/** What the next handler gets of a request body that the guest has read: over all of
    handle_request, for any body, any reads and any features asked for on the way. */
module Replay {
  import opened Abi
  import opened FeatureBits
  import opened GuestLog
  import opened Exchange
  import opened RequestFlow
  import R = ResponseFlow
  import RequestBodies

  /** How many bytes of a read come together with the end. */
  function TailBytes(x: State, c: Call): nat
    requires IsRead(c)
  {
    var y := OpenRequestReader(x);
    var leaf := Leaf(y.bodies, y.requestReader.value.of);
    if leaf >= |y.bodies| then 0
    else TailOf(y.bodies[leaf], c.limit, Min(c.limit, |Bytes(y.bodies[leaf])|), c.chunking)
  }

  /** How many bytes one call reads without an error: those a wrapper does not record. */
  function Silent(x: State, c: Call): int {
    var answer := Step(x, c).answer;
    if IsRead(c) && answer.Chunk? then |answer.data| - TailBytes(x, c) else 0
  }

  function SilentBytes(x: State, calls: seq<Call>): int
    decreases |calls|
  {
    if calls == [] then 0
    else
      var r := Step(x, calls[0]);
      Silent(x, calls[0]) + (if r.answer.Panic? then 0 else SilentBytes(r.x, calls[1..]))
  }

  predicate NoWrites(calls: seq<Call>) {
    forall c :: c in calls ==> !IsWrite(c)
  }

  /** An enable_features that finds or turns request buffering on wraps the body once
      more. Here it comes when the reader is already open. */
  predicate WrapsOverReader(x: State, c: Call) {
    x.requestReader.Some? && c.EnableFeatures? && IsEnabled(Step(x, c).x.features, BUFFER_REQUEST)
  }

  predicate WrapsAfterRead(x: State, calls: seq<Call>)
    decreases |calls|
  {
    calls != [] &&
    var r := Step(x, calls[0]);
    WrapsOverReader(x, calls[0]) || (!r.answer.Panic? && WrapsAfterRead(r.x, calls[1..]))
  }

  predicate Wrapped(x: State) {
    x.body < |x.bodies| && (x.bodies[x.body].Recording? <==> IsEnabled(x.features, BUFFER_REQUEST))
  }

  /** A request the guest has not touched, over any chain of body objects: nothing is
      recorded yet, and the body is wrapped if and only if request buffering is on. */
  ghost predicate Untouched(x: State) {
    && !x.afterNext && x.requestReader.None? && x.requestWriter.None?
    && Chained(x.bodies) && Wrapped(x)
    && (x.bodies[x.body].Recording? ==> x.bodies[x.body].record == [])
  }

  // ---- What is read, what is recorded, what is left ----

  /** The record of the object that is read: what came with the end. */
  ghost predicate Recorded(b: Body, rest: bytes, read: bytes, silent: int) {
    b.Recording? ==>
      && 0 <= silent <= |read| && b.record == read[silent..]
      && (b.record != [] ==> rest == [])
  }

  ghost predicate Kept(x: State, original: bytes, read: bytes, silent: int) {
    && !x.afterNext && x.requestWriter.None? && Chained(x.bodies) && x.body < |x.bodies|
    && read + Rest(x.bodies, x.body) == original
    && match x.requestReader
       case None => read == [] && silent == 0 && (x.bodies[x.body].Recording? ==> x.bodies[x.body].record == [])
       case Some(r) =>
         && r.of < |x.bodies| && LeadsTo(x.bodies, x.body, r.of)
         && Recorded(x.bodies[r.of], Rest(x.bodies, r.of), read, silent)
  }

  lemma {:induction false} LeadsToSame(bodies: seq<Body>, i: nat, target: nat)
    requires target < |bodies| && LeadsTo(bodies, i, target)
    ensures Leaf(bodies, i) == Leaf(bodies, target) && Rest(bodies, i) == Rest(bodies, target)
  {
    if i != target {
      LeadsToSame(bodies, bodies[i].delegate, target);
    }
  }

  lemma OpeningKeeps(x: State, original: bytes, read: bytes, silent: int)
    requires Kept(x, original, read, silent)
    ensures Kept(OpenRequestReader(x), original, read, silent)
  {
  }

  /** A read moves bytes from what is left to what is read and, from the last of them on,
      to the record. */
  lemma ReadKeeps(x: State, original: bytes, read: bytes, silent: int, c: Call)
    requires Kept(x, original, read, silent) && IsRead(c) && !Step(x, c).answer.Panic?
    ensures var r := Step(x, c);
            && r.answer.Chunk? && r.x.requestReader == OpenRequestReader(x).requestReader
            && r.x.body == x.body && r.x.features == x.features
            && Kept(r.x, original, read + r.answer.data, silent + |r.answer.data| - TailBytes(x, c))
  {
    var y := OpenRequestReader(x);
    OpeningKeeps(x, original, read, silent);
    assert Step(x, c) == ReadFrom(y, y.requestReader.value.of, c.limit, c.chunking) by {
      assert Step(x, c) == OnReadRequest(x, c.limit, c.inMemory, c.chunking);
    }
    ReadOpenedKeeps(y, original, read, silent, c.limit, c.chunking);
  }

  lemma ReadOpenedKeeps(x: State, original: bytes, read: bytes, silent: int, limit: nat, c: Chunking)
    requires Kept(x, original, read, silent) && x.requestReader.Some?
    requires ReadFrom(x, x.requestReader.value.of, limit, c).answer.Chunk?
    ensures var i := x.requestReader.value.of;
            var r, leaf := ReadFrom(x, i, limit, c), Leaf(x.bodies, i);
            && r.x == x.(bodies := r.x.bodies) && leaf < |x.bodies|
            && var t := TailOf(x.bodies[leaf], limit, Min(limit, |Bytes(x.bodies[leaf])|), c);
               Kept(r.x, original, read + r.answer.data, silent + |r.answer.data| - t)
  {
    var i := x.requestReader.value.of;
    var r := ReadFrom(x, i, limit, c);
    ReadFromAdvances(x, i, limit, c);
    LeadsToSame(x.bodies, x.body, i);
    LeadsToStays(x.bodies, r.x.bodies, x.body, i);
    LeadsToSame(r.x.bodies, x.body, i);
    var data, rest := r.answer.data, Rest(r.x.bodies, i);
    assert read + data + rest == read + (data + rest);
    RecordGrows(x, i, limit, c, read, silent);
  }

  /** The record of object i after a read. */
  lemma RecordOf(x: State, i: nat, limit: nat, c: Chunking)
    requires Chained(x.bodies) && i < |x.bodies| && x.bodies[i].Recording?
    requires ReadFrom(x, i, limit, c).answer.Chunk?
    ensures var r, b := ReadFrom(x, i, limit, c), Leaf(x.bodies, i);
            && b < |x.bodies| && Rest(x.bodies, i) == Bytes(x.bodies[b])
            && r.answer.data == Bytes(x.bodies[b])[..Min(limit, |Bytes(x.bodies[b])|)]
            && var n := |r.answer.data|;
               var t := TailOf(x.bodies[b], limit, n, c);
               && t <= n && (t > 0 ==> r.answer.data == Bytes(x.bodies[b]))
               && r.x.bodies[i] == Recording(x.bodies[i].delegate, x.bodies[i].record + r.answer.data[n - t..])
  {
    LeafBelow(x.bodies, i);
    var b := x.bodies[Leaf(x.bodies, i)];
    var n := Min(limit, |Bytes(b)|);
    var t := TailOf(b, limit, n, c);
    var data := Bytes(b)[..n];
    assert t > 0 ==> n == |Bytes(b)|;
    assert ReadFrom(x, i, limit, c).x.bodies == Consume(x.bodies, i, n, data[n - t..]);
  }

  lemma TailJoins(read: bytes, silent: int, record: bytes, data: bytes, t: nat)
    requires 0 <= silent <= |read| && record == read[silent..] && t <= |data|
    requires record != [] ==> data == []
    ensures (read + data)[silent + |data| - t..] == record + data[|data| - t..]
  {
    if record == [] {
      assert silent == |read|;
    } else {
      assert read + data == read && data[|data| - t..] == [];
      assert record + [] == record;
    }
  }

  lemma RecordGrows(x: State, i: nat, limit: nat, c: Chunking, read: bytes, silent: int)
    requires Chained(x.bodies) && i < |x.bodies|
    requires Recorded(x.bodies[i], Rest(x.bodies, i), read, silent)
    requires ReadFrom(x, i, limit, c).answer.Chunk?
    ensures var r, leaf := ReadFrom(x, i, limit, c), Leaf(x.bodies, i);
            && leaf < |x.bodies|
            && var t := TailOf(x.bodies[leaf], limit, Min(limit, |Bytes(x.bodies[leaf])|), c);
               Recorded(r.x.bodies[i], Rest(r.x.bodies, i), read + r.answer.data, silent + |r.answer.data| - t)
  {
    LeafBelow(x.bodies, i);
    ReadFromAdvances(x, i, limit, c);
    if x.bodies[i].Recording? {
      RecordOf(x, i, limit, c);
      var r := ReadFrom(x, i, limit, c);
      var data := r.answer.data;
      var t := TailOf(x.bodies[Leaf(x.bodies, i)], limit, |data|, c);
      TailJoins(read, silent, x.bodies[i].record, data, t);
      if t > 0 || x.bodies[i].record != [] {
        assert data == Rest(x.bodies, i);
        assert |data| + |Rest(r.x.bodies, i)| == |data|;
      }
    } else {
      KindStays(x, i, limit, c, i);
    }
  }

  lemma EnableKeeps(x: State, original: bytes, read: bytes, silent: int, f: Features)
    requires Kept(x, original, read, silent)
    ensures var y := Enable(x, f).x;
            && Kept(y, original, read, silent) && y.requestReader == x.requestReader
            && (if IsEnabled(y.features, BUFFER_REQUEST) then y.body == |x.bodies| else y.body == x.body)
            && (Wrapped(x) ==> Wrapped(y))
  {
    EnableFrame(x, f);
    var y := Enable(x, f).x;
    if IsEnabled(y.features, BUFFER_REQUEST) {
      assert y.bodies == x.bodies + [Recording(x.body, [])] && y.body == |x.bodies|;
      AppendKeepsRest(x.bodies, Recording(x.body, []), x.body);
      if x.requestReader.Some? {
        var of := x.requestReader.value.of;
        AppendKeepsRest(x.bodies, Recording(x.body, []), of);
        LeadsToStays(x.bodies, y.bodies, x.body, of);
      }
    } else {
      assert y.bodies == x.bodies && y.body == x.body;
    }
  }

  lemma OtherKeeps(x: State, c: Call)
    requires !IsRead(c) && !IsWrite(c) && !c.EnableFeatures?
    ensures var y := Step(x, c).x;
            && y.afterNext == x.afterNext && y.requestWriter == x.requestWriter && y.requestReader == x.requestReader
            && y.bodies == x.bodies && y.body == x.body && y.features == x.features
  {
    match c
    case ReadBody(_, _, _, _) => ReadFrame(x, c);
    case WriteBody(kind, _) =>
      if kind == ResponseBody {
        ResponseWriteFrame(x, c);
      }
    case EnableFeatures(_) =>
    case _ =>
      if ChangesHead(c) {
        HeadFrame(x, c);
      } else {
        StatusFrame(x, c);
      }
  }

  /** Reading keeps a wrapper a wrapper. */
  lemma ReadKeepsWrapped(x: State, c: Call)
    requires Wrapped(x) && IsRead(c) && (x.requestReader.Some? ==> x.requestReader.value.of < |x.bodies|)
    ensures Wrapped(Step(x, c).x)
  {
    ReadFrame(x, c);
    var y := OpenRequestReader(x);
    assert Step(x, c) == OnReadRequest(x, c.limit, c.inMemory, c.chunking);
    if BeforeNextOrFeature(x, BUFFER_REQUEST) && c.limit > 0 && c.inMemory {
      KindStays(y, y.requestReader.value.of, c.limit, c.chunking, y.body);
    }
  }

  lemma KindStays(x: State, i: nat, limit: nat, c: Chunking, j: nat)
    requires i < |x.bodies| && j < |x.bodies|
    ensures var r := ReadFrom(x, i, limit, c).x;
            |r.bodies| == |x.bodies| && (r.bodies[j].Recording? <==> x.bodies[j].Recording?)
  {
    var leaf := Leaf(x.bodies, i);
    if leaf < |x.bodies| {
      var b := x.bodies[leaf];
      var n := Min(limit, |Bytes(b)|);
      RequestBodies.KindStays(x.bodies, i, n, Bytes(b)[..n][n - TailOf(b, limit, n, c)..], j);
    }
  }

  // ---- Over the calls of handle_request ----

  /** The body is still the object that is read. */
  predicate SameBody(x: State) {
    x.requestReader.Some? && x.body == x.requestReader.value.of
  }

  /** The body is still the object that is read, unless a wrapper went over it. */
  predicate StaysTheBody(x: State, y: State, wrapped: bool) {
    y.requestReader.Some? ==> (SameBody(y) <==> (x.requestReader.None? || SameBody(x)) && !wrapped)
  }

  lemma StepKeeps(x: State, original: bytes, read: bytes, silent: int, c: Call)
    requires Kept(x, original, read, silent) && !IsWrite(c) && !Step(x, c).answer.Panic?
    ensures Kept(Step(x, c).x, original, read + Got(c, Step(x, c).answer), silent + Silent(x, c))
    ensures Wrapped(x) ==> Wrapped(Step(x, c).x)
    ensures StaysTheBody(x, Step(x, c).x, WrapsOverReader(x, c))
    ensures x.requestReader.Some? ==> Step(x, c).x.requestReader == x.requestReader
  {
    assert read + [] == read;
    if IsRead(c) {
      ReadKeeps(x, original, read, silent, c);
      if Wrapped(x) {
        ReadKeepsWrapped(x, c);
      }
    } else if c.EnableFeatures? {
      EnableKeeps(x, original, read, silent, c.f);
    } else {
      OtherKeeps(x, c);
    }
  }

  lemma OneCallMore(x: State, calls: seq<Call>, read: bytes)
    requires calls != [] && !Calls(x, calls).answer.Panic?
    ensures var r, more := Step(x, calls[0]), calls[1..];
            && !r.answer.Panic? && Calls(x, calls) == Calls(r.x, more)
            && SilentBytes(x, calls) == Silent(x, calls[0]) + SilentBytes(r.x, more)
            && read + ReadBytes(x, calls) == read + Got(calls[0], r.answer) + ReadBytes(r.x, more)
  {
    var r := Step(x, calls[0]);
    assert ReadBytes(x, calls) == Got(calls[0], r.answer) + ReadBytes(r.x, calls[1..]);
    Joins([], [], [], read, Got(calls[0], r.answer), ReadBytes(r.x, calls[1..]));
  }

  lemma {:induction false} CallsKeep(x: State, calls: seq<Call>, original: bytes, read: bytes, silent: int)
    requires Kept(x, original, read, silent) && NoWrites(calls) && !Calls(x, calls).answer.Panic?
    ensures Kept(Calls(x, calls).x, original, read + ReadBytes(x, calls), silent + SilentBytes(x, calls))
    ensures Wrapped(x) ==> Wrapped(Calls(x, calls).x)
    decreases |calls|
  {
    if calls == [] {
      assert read + [] == read;
    } else {
      var c, r := calls[0], Step(x, calls[0]);
      OneCallMore(x, calls, read);
      StepKeeps(x, original, read, silent, c);
      CallsKeep(r.x, calls[1..], original, read + Got(c, r.answer), silent + Silent(x, c));
    }
  }

  lemma {:induction false} CallsStay(x: State, calls: seq<Call>, original: bytes, read: bytes, silent: int)
    requires Kept(x, original, read, silent) && NoWrites(calls) && !Calls(x, calls).answer.Panic?
    ensures StaysTheBody(x, Calls(x, calls).x, WrapsAfterRead(x, calls))
    ensures x.requestReader.Some? ==> Calls(x, calls).x.requestReader == x.requestReader
    decreases |calls|
  {
    if calls != [] {
      var c, r := calls[0], Step(x, calls[0]);
      assert c in calls && !r.answer.Panic?;
      StepKeeps(x, original, read, silent, c);
      CallsStay(r.x, calls[1..], original, read + Got(c, r.answer), silent + Silent(x, c));
    }
  }

  lemma HandedOn(x: State, original: bytes, read: bytes, silent: int)
    requires Kept(x, original, read, silent)
    ensures var z := ResetBody(CloseRequest(x));
            var k := if SameBody(x) && x.bodies[x.body].Recording? then silent else |read|;
            0 <= k <= |original| && Rest(z.bodies, z.body) == original[k..]
  {
    var b := x.bodies[x.body];
    if b.Recording? {
      assert Rest(x.bodies, x.body) == Rest(x.bodies, b.delegate);
      if b.record == [] {
        assert SameBody(x) ==> silent == |read|;
      } else {
        assert SameBody(x) && read + [] == original;
      }
    }
  }

  /** The first byte the next handler gets: the first that no error-free read returned,
      if the wrapper that was read is the one handed on, and else the first that was
      not read. */
  function ReplayFrom(x: State, calls: seq<Call>): int {
    if IsEnabled(Calls(x, calls).x.features, BUFFER_REQUEST) && !WrapsAfterRead(x, calls)
    then SilentBytes(x, calls)
    else |ReadBytes(x, calls)|
  }

  /** What the next handler reads after a handle_request that asks for it. */
  function HandedToNext(x: State, calls: seq<Call>): bytes {
    var z := ResetBody(CloseRequest(Calls(x, calls).x));
    Rest(z.bodies, z.body)
  }

  lemma AtTheEnd(x: State, calls: seq<Call>)
    requires Untouched(x) && NoWrites(calls) && !Calls(x, calls).answer.Panic?
    ensures Kept(Calls(x, calls).x, Rest(x.bodies, x.body), ReadBytes(x, calls), SilentBytes(x, calls))
    ensures Wrapped(Calls(x, calls).x)
    ensures Calls(x, calls).x.requestReader.Some? ==> (SameBody(Calls(x, calls).x) <==> !WrapsAfterRead(x, calls))
  {
    var original := Rest(x.bodies, x.body);
    assert [] + original == original && [] + ReadBytes(x, calls) == ReadBytes(x, calls);
    CallsKeep(x, calls, original, [], 0);
    CallsStay(x, calls, original, [], 0);
  }

  /** A handle_request that does not write the body hands on the original from one
      exact byte on. */
  lemma NextGetsFrom(x: State, calls: seq<Call>)
    requires Untouched(x) && NoWrites(calls) && !Calls(x, calls).answer.Panic?
    ensures var original, k := Rest(x.bodies, x.body), ReplayFrom(x, calls);
            0 <= k <= |original| && HandedToNext(x, calls) == original[k..]
  {
    AtTheEnd(x, calls);
    HandedOn(Calls(x, calls).x, Rest(x.bodies, x.body), ReadBytes(x, calls), SilentBytes(x, calls));
  }

  /** With request buffering on when handle_request returns, the next handler gets the
      whole body if and only if nothing was read, or the body was not wrapped again after
      the reader was opened and no read returned bytes without an error. */
  lemma NextGetsAllIff(x: State, calls: seq<Call>)
    requires Untouched(x) && NoWrites(calls) && !Calls(x, calls).answer.Panic?
    requires IsEnabled(Calls(x, calls).x.features, BUFFER_REQUEST)
    ensures HandedToNext(x, calls) == Rest(x.bodies, x.body)
            <==> ReadBytes(x, calls) == [] || (!WrapsAfterRead(x, calls) && SilentBytes(x, calls) == 0)
  {
    NextGetsFrom(x, calls);
    SilentBelow(x, calls);
  }

  lemma {:induction false} SilentBelow(x: State, calls: seq<Call>)
    ensures 0 <= SilentBytes(x, calls) <= |ReadBytes(x, calls)|
    decreases |calls|
  {
    if calls != [] {
      SilentOfOne(x, calls[0]);
      SilentBelow(Step(x, calls[0]).x, calls[1..]);
    }
  }

  lemma SilentOfOne(x: State, c: Call)
    ensures 0 <= Silent(x, c) <= |Got(c, Step(x, c).answer)|
  {
    if IsRead(c) {
      assert Step(x, c) == OnReadRequest(x, c.limit, c.inMemory, c.chunking);
    }
  }

  // ---- Over a request ----

  lemma BeginUntouched(features: Features, guest: nat, rest: bytes, fails: bool, verb: bytes, uri: bytes,
                       headers: HeaderMap)
    ensures var x := Begin(features, guest, Stream(rest, fails), verb, uri, headers);
            Untouched(x) && x.features == features && Rest(x.bodies, x.body) == rest
  {
    var x := Begin(features, guest, Stream(rest, fails), verb, uri, headers);
    assert x.bodies[0] == Stream(rest, fails) && Leaf(x.bodies, 0) == 0;
    assert Leaf(x.bodies, x.body) == 0;
  }

  /** What the next handler finds for a body when it starts. */
  function NextBody(x: State, env: Environment): bytes {
    var z := ResetBody(RequestPhase(x, env).0);
    Rest(z.bodies, z.body)
  }

  lemma NextBodyIsHanded(x: State, env: Environment)
    requires R.Proceeds(x, env)
    ensures !Calls(x, env.request.calls).answer.Panic? && NextBody(x, env) == HandedToNext(x, env.request.calls)
  {
    var y, z := CloseRequest(Calls(x, env.request.calls).x), RequestPhase(x, env).0;
    assert z.body == y.body && z.bodies == y.bodies;
  }

  /** From the arrival of a request with request buffering on to the next handler. */
  lemma NextGetsAllOfARequest(features: Features, guest: nat, rest: bytes, fails: bool, verb: bytes, uri: bytes,
                              headers: HeaderMap, env: Environment)
    requires IsEnabled(features, BUFFER_REQUEST) && NoWrites(env.request.calls)
    requires R.Proceeds(Begin(features, guest, Stream(rest, fails), verb, uri, headers), env)
    ensures var x, calls := Begin(features, guest, Stream(rest, fails), verb, uri, headers), env.request.calls;
            NextBody(x, env) == rest
            <==> ReadBytes(x, calls) == [] || (!WrapsAfterRead(x, calls) && SilentBytes(x, calls) == 0)
  {
    var x := Begin(features, guest, Stream(rest, fails), verb, uri, headers);
    BeginUntouched(features, guest, rest, fails, verb, uri, headers);
    FeaturesStay(x, env.request.calls);
    NextBodyIsHanded(x, env);
    NextGetsAllIff(x, env.request.calls);
  }

  lemma FeaturesStayOnce(x: State, c: Call)
    requires IsEnabled(x.features, BUFFER_REQUEST)
    ensures IsEnabled(Step(x, c).x.features, BUFFER_REQUEST)
  {
    if IsRead(c) {
      ReadFrame(x, c);
    } else if IsWrite(c) {
      RequestWriteFrame(x, c);
    } else if !c.EnableFeatures? {
      OtherKeeps(x, c);
    }
  }

  lemma {:induction false} FeaturesStay(x: State, calls: seq<Call>)
    requires IsEnabled(x.features, BUFFER_REQUEST)
    ensures IsEnabled(Calls(x, calls).x.features, BUFFER_REQUEST)
    decreases |calls|
  {
    if calls != [] {
      FeaturesStayOnce(x, calls[0]);
      FeaturesStay(Step(x, calls[0]).x, calls[1..]);
    }
  }

  /** A guest that reads the body whole, and then enables features, whichever. */
  const READ_TWO := ReadBody(RequestBody, 2, true, Chunking(true, 1))
  const ENABLES_LATE := Environment(Script([READ_TWO, EnableFeatures({})], Returned(1)), false, [], [],
                                    Script([], Returned(0)))

  /** The second half of the condition is needed: the one byte came with the end, and
      was recorded, but by a wrapper that another covers. */
  lemma WrappingAgainLosesBody(x: State)
    requires !x.afterNext && x.requestReader.None? && IsEnabled(x.features, BUFFER_REQUEST)
    requires x.bodies == [Stream([104], false), Recording(0, [])] && x.body == 1
    ensures R.Proceeds(x, ENABLES_LATE) && Rest(x.bodies, x.body) == [104] && NextBody(x, ENABLES_LATE) == []
    ensures SilentBytes(x, ENABLES_LATE.request.calls) == 0
  {
    var calls := ENABLES_LATE.request.calls;
    assert calls[1..] == [EnableFeatures({})] && calls[1..][1..] == [];
    var x1 := ReadsWithEnd(x);
    var x2 := Step(x1, EnableFeatures({})).x;
    assert Calls(x1, calls[1..]) == Calls(x2, calls[1..][1..]);
    assert Calls(x, calls) == Calls(x1, calls[1..]);
    EnableFrame(x1, {});
    assert x2.bodies == x1.bodies + [Recording(1, [])] && x2.body == 2;
    assert Lo(1) == 1;
    assert Leaf(x.bodies, 0) == 0 && Leaf(x2.bodies, 0) == 0;
    assert Leaf(x.bodies, 1) == 0 && Leaf(x2.bodies, 1) == 0;
    assert SilentBytes(x1, calls[1..]) == Silent(x1, calls[1]) + SilentBytes(x2, calls[1..][1..]);
    assert SilentBytes(x, calls) == Silent(x, READ_TWO) + SilentBytes(x1, calls[1..]);
  }

  lemma ReadsWithEnd(x: State) returns (x1: State)
    requires !x.afterNext && x.requestReader.None?
    requires x.bodies == [Stream([104], false), Recording(0, [])] && x.body == 1
    ensures Step(x, READ_TWO) == Reply(x1, Chunk([104], true)) && Silent(x, READ_TWO) == 0
    ensures x1.bodies == [Stream([], false), Recording(0, [104])]
    ensures x1 == x.(bodies := x1.bodies, requestReader := x1.requestReader, acquired := x1.acquired)
  {
    var y := OpenRequestReader(x);
    x1 := y.(bodies := [Stream([], false), Recording(0, [104])]);
    WithEnd(x.bodies, x1.bodies);
    assert Step(x, READ_TWO) == OnReadRequest(x, 2, true, Chunking(true, 1)) == ReadFrom(y, 1, 2, Chunking(true, 1));
  }

  lemma WithEnd(full: seq<Body>, empty: seq<Body>)
    requires full == [Stream([104], false), Recording(0, [])] && empty == [Stream([], false), Recording(0, [104])]
    ensures ReadThrough(full, 1, 2, Chunking(true, 1)) == (empty, Chunk([104], true))
    ensures Leaf(full, 1) == 0 && TailOf(full[0], 2, 1, Chunking(true, 1)) == 1
  {
    assert Leaf(full, 0) == 0 && Leaf(full, 1) == 0;
    assert [104][1..] == [] && [104][..1] == [104] && [104][0..] == [104];
    assert Consume(full, 0, 1, [104]) == [Stream([], false), Recording(0, [])];
    assert full[1].record + [104] == [104];
    assert Consume(full, 1, 1, [104]) == Consume(full, 0, 1, [104])[1 := Recording(0, [104])] == empty;
  }
}
