/** A guest that reads the request body and replaces it in the same request. */
module RequestFlow {
  import opened Abi
  import opened FeatureBits
  import opened Exchange

  predicate IsRead(c: Call) {
    c.ReadBody? && c.body == RequestBody
  }

  predicate IsWrite(c: Call) {
    c.WriteBody? && c.body == RequestBody
  }

  /** What one call reads and writes of the request body. */
  function Got(c: Call, answer: Answer): bytes {
    if IsRead(c) && answer.Chunk? then answer.data else []
  }

  function Put(c: Call, answer: Answer): bytes {
    if IsWrite(c) && !answer.Panic? && c.data.Some? then c.data.value else []
  }

  /** The bytes of the request body the guest gets to see. */
  function ReadBytes(x: State, calls: seq<Call>): bytes
    decreases |calls|
  {
    if calls == [] then []
    else
      var r := Step(x, calls[0]);
      Got(calls[0], r.answer) + (if r.answer.Panic? then [] else ReadBytes(r.x, calls[1..]))
  }

  /** The bytes it writes; a trapped write has written nothing. */
  function WrittenBytes(x: State, calls: seq<Call>): bytes
    decreases |calls|
  {
    if calls == [] then []
    else
      var r := Step(x, calls[0]);
      Put(calls[0], r.answer) + (if r.answer.Panic? then [] else WrittenBytes(r.x, calls[1..]))
  }

  /** The guest does not start reading once it has started writing. */
  predicate ReaderFirst(calls: seq<Call>, reading: bool, writing: bool)
    decreases |calls|
  {
    calls != [] ==>
      && (IsRead(calls[0]) ==> reading || !writing)
      && ReaderFirst(calls[1..], reading || IsRead(calls[0]), writing || IsWrite(calls[0]))
  }

  /** Wrappers refer to earlier objects. */
  ghost predicate Chained(bodies: seq<Body>) {
    forall i :: 0 <= i < |bodies| && bodies[i].Recording? ==> bodies[i].delegate < i
  }

  lemma {:induction false} LeafBelow(bodies: seq<Body>, i: nat)
    requires i < |bodies| && Chained(bodies)
    ensures Leaf(bodies, i) <= i && !bodies[Leaf(bodies, i)].Recording?
  {
    if bodies[i].Recording? {
      LeafBelow(bodies, bodies[i].delegate);
    }
  }

  /** Objects above i play no part in reading object i. */
  lemma {:induction false} RestDependsBelow(a: seq<Body>, b: seq<Body>, i: nat)
    requires i < |a| && i < |b| && forall j :: 0 <= j <= i ==> a[j] == b[j]
    ensures Leaf(a, i) == Leaf(b, i) && Rest(a, i) == Rest(b, i)
  {
    if a[i].Recording? && a[i].delegate < i {
      RestDependsBelow(a, b, a[i].delegate);
    } else {
      assert Leaf(a, i) == i && Leaf(b, i) == i;
    }
  }

  lemma {:induction false} ConsumeAdvances(bodies: seq<Body>, i: nat, n: nat, recorded: bytes)
    requires i < |bodies| && Chained(bodies) && n <= |Rest(bodies, i)|
    ensures var r := Consume(bodies, i, n, recorded);
            Chained(r) && Leaf(r, i) == Leaf(bodies, i) && Rest(r, i) == Rest(bodies, i)[n..]
  {
    if bodies[i].Recording? {
      var d := bodies[i].delegate;
      ConsumeAdvances(bodies, d, n, recorded);
      var inner := Consume(bodies, d, n, recorded);
      RestDependsBelow(inner, Consume(bodies, i, n, recorded), d);
    }
  }

  lemma ReadFromAdvances(x: State, i: nat, limit: nat, c: Chunking)
    requires i < |x.bodies| && Chained(x.bodies)
    ensures var r := ReadFrom(x, i, limit, c);
            && r.x == x.(bodies := r.x.bodies) && |r.x.bodies| == |x.bodies| && Chained(r.x.bodies)
            && (forall j :: i < j < |x.bodies| ==> r.x.bodies[j] == x.bodies[j])
            && (r.answer.Chunk? ==> r.answer.data + Rest(r.x.bodies, i) == Rest(x.bodies, i))
            && (r.answer.Chunk? || r.answer.Panic?)
  {
    LeafBelow(x.bodies, i);
    var b := x.bodies[Leaf(x.bodies, i)];
    var n := Min(limit, |Bytes(b)|);
    ConsumeAdvances(x.bodies, i, n, Bytes(b)[..n][n - TailOf(b, limit, n, c)..]);
  }

  /** The request body leads, through wrappers that have recorded nothing, to the
      buffer the guest writes. */
  ghost predicate LeadsTo(bodies: seq<Body>, i: nat, target: nat)
    decreases i
  {
    i < |bodies| &&
    (i == target || (bodies[i].Recording? && bodies[i].record == [] && bodies[i].delegate < i
                     && LeadsTo(bodies, bodies[i].delegate, target)))
  }

  lemma {:induction false} LeadsToStays(a: seq<Body>, b: seq<Body>, i: nat, target: nat)
    requires LeadsTo(a, i, target) && |a| <= |b|
    requires forall j :: target < j < |a| ==> b[j] == a[j]
    ensures LeadsTo(b, i, target) && target <= i
  {
    if i != target {
      LeadsToStays(a, b, a[i].delegate, target);
    }
  }

  lemma {:induction false} LeadsToRest(bodies: seq<Body>, i: nat, target: nat)
    requires target < |bodies| && LeadsTo(bodies, i, target) && !bodies[target].Recording?
    ensures Rest(bodies, i) == Bytes(bodies[target])
  {
    if i != target {
      LeadsToRest(bodies, bodies[i].delegate, target);
      assert Rest(bodies, i) == Rest(bodies, bodies[i].delegate);
    }
  }

  /** The shape of the request side while the guest runs: what is left to read, and
      what has been written. */
  ghost predicate Shape(x: State, left: bytes, written: bytes) {
    && !x.afterNext && Chained(x.bodies) && x.body < |x.bodies|
    && (x.requestReader.Some? ==>
          x.requestReader.value.of < |x.bodies| && Rest(x.bodies, x.requestReader.value.of) == left)
    && (match x.requestWriter
        case None => (x.requestReader.None? ==> Rest(x.bodies, x.body) == left) && written == []
        case Some(i) =>
          && i < |x.bodies| && x.bodies[i] == Buffer(written) && LeadsTo(x.bodies, x.body, i)
          && (x.requestReader.Some? ==> x.requestReader.value.of < i))
  }

  lemma ReadKeepsShape(x: State, left: bytes, written: bytes, c: Call)
    requires Shape(x, left, written) && IsRead(c) && (x.requestReader.Some? || x.requestWriter.None?)
    ensures var r := Step(x, c);
            && r.x.requestReader.Some? && r.x.requestWriter == x.requestWriter
            && (r.answer.Chunk? ==>
                  exists left' :: left == r.answer.data + left' && Shape(r.x, left', written))
            && (!r.answer.Chunk? ==> r.answer.Panic? && exists left' :: Shape(r.x, left', written))
  {
    var y := OpenRequestReader(x);
    assert Step(x, c) == OnReadRequest(x, c.limit, c.inMemory, c.chunking);
    assert Shape(y, left, written);
    var i := y.requestReader.value.of;
    ReadFromAdvances(y, i, c.limit, c.chunking);
    var r := ReadFrom(y, i, c.limit, c.chunking);
    if x.requestWriter.Some? {
      LeadsToStays(y.bodies, r.x.bodies, y.body, x.requestWriter.value);
    }
    assert Shape(r.x, Rest(r.x.bodies, i), written);
  }

  lemma EnableKeepsShape(x: State, left: bytes, written: bytes, f: Features)
    requires Shape(x, left, written)
    ensures Shape(Enable(x, f).x, left, written)
    ensures Enable(x, f).x.requestReader == x.requestReader && Enable(x, f).x.requestWriter == x.requestWriter
  {
    EnableFrame(x, f);
    var y := Enable(x, f).x;
    if y.bodies != x.bodies {
      assert y.bodies == x.bodies + [Recording(x.body, [])] && y.body == |x.bodies|;
      AppendKeepsRest(x.bodies, Recording(x.body, []), x.body);
      if x.requestReader.Some? {
        AppendKeepsRest(x.bodies, Recording(x.body, []), x.requestReader.value.of);
      }
      if x.requestWriter.Some? {
        LeadsToStays(x.bodies, y.bodies, x.body, x.requestWriter.value);
      }
    }
  }

  lemma AppendKeepsRest(bodies: seq<Body>, b: Body, i: nat)
    requires i < |bodies|
    ensures Rest(bodies + [b], i) == Rest(bodies, i)
    ensures b == Recording(i, []) ==> Rest(bodies + [b], |bodies|) == Rest(bodies, i)
  {
    RestDependsBelow(bodies, bodies + [b], i);
    if b == Recording(i, []) {
      assert Leaf(bodies + [b], |bodies|) == Leaf(bodies + [b], i);
    }
  }

  lemma OpenWriterKeepsShape(x: State, left: bytes, written: bytes)
    requires Shape(x, left, written)
    ensures var y := OpenRequestWriter(x);
            && Shape(y, if x.requestReader.Some? then left else Rest(y.bodies, y.body), written)
            && y.requestWriter.Some? && y.requestReader == x.requestReader
  {
    if x.requestWriter.None? && x.requestReader.Some? {
      AppendKeepsRest(x.bodies, Buffer([]), x.requestReader.value.of);
    }
  }

  /** A write replaces the body once, and appends from then on. The bytes still to
      be read are unaffected as long as the reader is already open. */
  lemma WriteKeepsShape(x: State, left: bytes, written: bytes, c: Call)
    requires Shape(x, left, written) && IsWrite(c)
    ensures var r := Step(x, c);
            && r.x.requestReader == x.requestReader && r.x.requestWriter.Some?
            && r.answer.Panic? == c.data.None?
            && Shape(r.x, if x.requestReader.Some? then left else Rest(r.x.bodies, r.x.body),
                     written + if c.data.Some? then c.data.value else [])
  {
    assert Step(x, c) == OnWriteRequest(x, c.data);
    OpenWriterKeepsShape(x, left, written);
    var y := OpenRequestWriter(x);
    var i := y.requestWriter.value;
    match c.data
    case None => assert written + [] == written;
    case Some(d) =>
      var z := y.(bodies := y.bodies[i := Buffer(y.bodies[i].content + d)]);
      assert OnWriteRequest(x, c.data).x == z;
      LeadsToStays(y.bodies, z.bodies, y.body, i);
      if y.requestReader.Some? {
        RestDependsBelow(y.bodies, z.bodies, y.requestReader.value.of);
      }
  }

  lemma OtherKeepsShape(x: State, left: bytes, written: bytes, c: Call)
    requires Shape(x, left, written) && !IsRead(c) && !IsWrite(c)
    ensures var y := Step(x, c).x;
            Shape(y, left, written) && y.requestReader == x.requestReader && y.requestWriter == x.requestWriter
  {
    match c
    case EnableFeatures(f) => EnableKeepsShape(x, left, written, f);
    case ReadBody(_, _, _, _) => ReadFrame(x, c);
    case WriteBody(kind, _) =>
      if kind == ResponseBody {
        ResponseWriteFrame(x, c);
      }
    case _ =>
      if ChangesHead(c) {
        HeadFrame(x, c);
      } else {
        StatusFrame(x, c);
      }
  }

  lemma StepKeepsShape(x: State, left: bytes, written: bytes, c: Call) returns (left': bytes)
    requires Shape(x, left, written) && (IsRead(c) ==> x.requestReader.Some? || x.requestWriter.None?)
    ensures var r := Step(x, c);
            && Shape(r.x, left', written + Put(c, r.answer))
            && (r.x.requestReader.Some? <==> x.requestReader.Some? || IsRead(c))
            && (r.x.requestWriter.Some? <==> x.requestWriter.Some? || IsWrite(c))
            && (IsRead(c) && !r.answer.Panic? ==> r.answer.Chunk?)
            && (r.answer.Panic? || (IsWrite(c) && x.requestReader.None?) || left == Got(c, r.answer) + left')
  {
    var r := Step(x, c);
    if IsRead(c) {
      ReadKeepsShape(x, left, written, c);
      assert written + [] == written;
      if r.answer.Chunk? {
        left' :| left == r.answer.data + left' && Shape(r.x, left', written);
      } else {
        left' :| Shape(r.x, left', written);
      }
    } else if IsWrite(c) {
      WriteKeepsShape(x, left, written, c);
      left' := if x.requestReader.Some? then left else Rest(r.x.bodies, r.x.body);
      assert [] + left == left;
    } else {
      OtherKeepsShape(x, left, written, c);
      left' := left;
      assert written + [] == written && [] + left == left;
    }
  }

  lemma Joins(got: bytes, more: bytes, before: bytes, written: bytes, put: bytes, later: bytes)
    ensures written + put + later == written + (put + later)
    ensures more <= before ==> got + more <= got + before
    ensures got == [] ==> got + more == more
  {
  }

  /** With the reader opened before the writer, whatever else the guest does, its
      reads join up to a prefix of the original body, and the buffer in place of
      the body holds exactly what it wrote. */
  lemma {:induction false} ReadAndRewrite(x: State, calls: seq<Call>, left: bytes, written: bytes)
    returns (left': bytes)
    requires Shape(x, left, written)
    requires ReaderFirst(calls, x.requestReader.Some?, x.requestWriter.Some?)
    ensures x.requestReader.Some? || x.requestWriter.None? ==> ReadBytes(x, calls) <= left
    ensures x.requestReader.None? && x.requestWriter.Some? ==> ReadBytes(x, calls) == []
    ensures Shape(Calls(x, calls).x, left', written + WrittenBytes(x, calls))
    decreases |calls|
  {
    if calls == [] {
      assert written + [] == written;
      left' := left;
    } else {
      var c, r := calls[0], Step(x, calls[0]);
      left' := StepKeepsShape(x, left, written, c);
      var got, put, before := Got(c, r.answer), Put(c, r.answer), left';
      if r.answer.Panic? {
        assert put + [] == put && got + [] == [];
      } else {
        left' := ReadAndRewrite(r.x, calls[1..], before, written + put);
        Joins(got, ReadBytes(r.x, calls[1..]), before, written, put, WrittenBytes(r.x, calls[1..]));
      }
    }
  }

  /** handleNext unwraps one wrapper; the writes are what the next handler reads. */
  lemma NextReadsTheWrites(x: State, left: bytes, written: bytes)
    requires Shape(x, left, written) && x.requestWriter.Some?
    ensures var y := ResetBody(CloseRequest(x)); Rest(y.bodies, y.body) == written
  {
    var i := x.requestWriter.value;
    LeadsToRest(x.bodies, x.body, i);
    if x.bodies[x.body].Recording? {
      assert x.body != i;
      LeadsToRest(x.bodies, x.bodies[x.body].delegate, i);
    }
  }

  /** The whole of handle_request: under any interleaving of reads and writes that
      begins reading before writing, with or without request buffering, the reads
      are a prefix of the original body and the next handler receives exactly the
      concatenation of the writes. */
  lemma RewritingIsExact(x: State, calls: seq<Call>)
    requires !x.afterNext && Chained(x.bodies) && x.body < |x.bodies|
    requires x.requestReader.None? && x.requestWriter.None?
    requires ReaderFirst(calls, false, false)
    ensures ReadBytes(x, calls) <= Rest(x.bodies, x.body)
    ensures Calls(x, calls).x.requestWriter.Some? ==>
              var y := ResetBody(CloseRequest(Calls(x, calls).x));
              Rest(y.bodies, y.body) == WrittenBytes(x, calls)
  {
    var left := Rest(x.bodies, x.body);
    var left' := ReadAndRewrite(x, calls, left, []);
    assert [] + WrittenBytes(x, calls) == WrittenBytes(x, calls);
    if Calls(x, calls).x.requestWriter.Some? {
      NextReadsTheWrites(Calls(x, calls).x, left', WrittenBytes(x, calls));
    }
  }

  /** Reading after writing takes the guest's own bytes away from the next handler. */
  lemma ReadingAfterWritingEatsTheWrites(x: State)
    requires !x.afterNext && x.bodies == [Stream([], false)] && x.body == 0
    requires x.requestReader.None? && x.requestWriter.None?
    ensures var calls := [WriteBody(RequestBody, Some([104, 105])), ReadBody(RequestBody, 1, true, Chunking(false, 0))];
            var y := ResetBody(CloseRequest(Calls(x, calls).x));
            WrittenBytes(x, calls) == [104, 105] && Rest(y.bodies, y.body) == [105]
  {
    var w, r := WriteBody(RequestBody, Some([104, 105])), ReadBody(RequestBody, 1, true, Chunking(false, 0));
    var calls := [w, r];
    assert calls[1..] == [r] && [r][1..] == [];
    var y := OpenRequestWriter(x);
    assert y.bodies == [Stream([], false), Buffer([])] && y.requestWriter == Some(1);
    var x1 := Step(x, w).x;
    assert [] + [104, 105] == [104, 105];
    assert x1.bodies == [Stream([], false), Buffer([104, 105])] && x1.body == 1 && !Step(x, w).answer.Panic?;
    var z := OpenRequestReader(x1);
    assert z.requestReader.value.of == 1 && Leaf(z.bodies, 1) == 1;
    var r2 := Step(x1, r);
    assert r2 == ReadFrom(z, 1, 1, Chunking(false, 0));
    assert [104, 105][1..] == [105];
    assert r2.x.bodies[1] == Buffer([105]) && r2.x.body == 1 && !r2.answer.Panic?;
    assert Calls(x1, [r]) == Calls(r2.x, []);
    assert Calls(x, calls) == Calls(x1, [r]);
    assert WrittenBytes(x1, [r]) == [] + WrittenBytes(r2.x, []);
  }
}

/** A guest whose first access to the request body is a write: it then reads its own
    bytes, and what it reads the next handler does not get. */
module OwnBytes {
  import opened Abi
  import opened FeatureBits
  import opened Exchange
  import opened RequestFlow

  predicate WriterFirst(calls: seq<Call>)
    decreases |calls|
  {
    calls != [] && (IsWrite(calls[0]) || (!IsRead(calls[0]) && WriterFirst(calls[1..])))
  }

  /** Body and reader both lead to the guest's buffer, which holds `left`. */
  ghost predicate OwnBuffer(x: State, left: bytes) {
    && !x.afterNext && x.requestWriter.Some? && x.requestWriter.value < |x.bodies|
    && x.bodies[x.requestWriter.value] == Buffer(left)
    && LeadsTo(x.bodies, x.body, x.requestWriter.value)
    && (x.requestReader.Some? ==> LeadsTo(x.bodies, x.requestReader.value.of, x.requestWriter.value))
  }

  /** Reading through wrappers takes bytes off the buffer and records nothing, as a
      buffer reports its end alone. */
  lemma {:induction false} ConsumeBuffer(bodies: seq<Body>, o: nat, n: nat, i: nat)
    requires i < |bodies| && bodies[i].Buffer? && n <= |bodies[i].content| && LeadsTo(bodies, o, i)
    ensures Leaf(bodies, o) == i
    ensures Consume(bodies, o, n, []) == bodies[i := Buffer(bodies[i].content[n..])]
  {
    if o != i {
      ConsumeBuffer(bodies, bodies[o].delegate, n, i);
      assert bodies[o].record + [] == bodies[o].record;
    }
  }

  lemma TakeOwn(x: State, left: bytes, limit: nat, c: Chunking)
    requires OwnBuffer(x, left) && x.requestReader.Some?
    ensures var r, n := ReadFrom(x, x.requestReader.value.of, limit, c), Min(limit, |left|);
            OwnBuffer(r.x, left[n..]) && r.answer.Chunk? && r.answer.data == left[..n]
  {
    var i, of, n := x.requestWriter.value, x.requestReader.value.of, Min(limit, |left|);
    ConsumeBuffer(x.bodies, of, n, i);
    assert left[..n][n..] == [];
    var bodies := x.bodies[i := Buffer(left[n..])];
    assert ReadFrom(x, of, limit, c).x == x.(bodies := bodies);
    LeadsToStays(x.bodies, bodies, x.body, i);
    LeadsToStays(x.bodies, bodies, of, i);
  }

  lemma ReadOwn(x: State, left: bytes, c: Call) returns (left': bytes)
    requires OwnBuffer(x, left) && IsRead(c)
    ensures OwnBuffer(Step(x, c).x, left') && left == Got(c, Step(x, c).answer) + left'
  {
    assert Step(x, c) == OnReadRequest(x, c.limit, c.inMemory, c.chunking);
    var y := OpenRequestReader(x);
    assert OwnBuffer(y, left);
    if c.limit == 0 || !c.inMemory {
      left' := left;
    } else {
      TakeOwn(y, left, c.limit, c.chunking);
      left' := left[Min(c.limit, |left|)..];
    }
  }

  lemma WriteOwn(x: State, left: bytes, c: Call)
    requires OwnBuffer(x, left) && IsWrite(c)
    ensures OwnBuffer(Step(x, c).x, left + Put(c, Step(x, c).answer))
  {
    var r, i := OnWriteRequest(x, c.data), x.requestWriter.value;
    assert Step(x, c) == r;
    assert left + [] == left;
    if c.data.Some? {
      assert r.x.bodies == x.bodies[i := Buffer(left + c.data.value)];
      LeadsToStays(x.bodies, r.x.bodies, x.body, i);
      if x.requestReader.Some? {
        LeadsToStays(x.bodies, r.x.bodies, x.requestReader.value.of, i);
      }
    }
  }

  lemma EnableOwn(x: State, left: bytes, f: Features)
    requires OwnBuffer(x, left)
    ensures OwnBuffer(Enable(x, f).x, left)
  {
    EnableFrame(x, f);
    var y, i := Enable(x, f).x, x.requestWriter.value;
    if y.bodies != x.bodies {
      assert y.bodies == x.bodies + [Recording(x.body, [])] && y.body == |x.bodies|;
      LeadsToStays(x.bodies, y.bodies, x.body, i);
      if x.requestReader.Some? {
        LeadsToStays(x.bodies, y.bodies, x.requestReader.value.of, i);
      }
    }
  }

  lemma OtherOwn(x: State, left: bytes, c: Call)
    requires OwnBuffer(x, left) && !IsRead(c) && !IsWrite(c)
    ensures OwnBuffer(Step(x, c).x, left)
  {
    match c
    case EnableFeatures(f) => EnableOwn(x, left, f);
    case ReadBody(_, _, _, _) => ReadFrame(x, c);
    case WriteBody(kind, _) =>
      if kind == ResponseBody {
        ResponseWriteFrame(x, c);
      }
    case _ =>
      if ChangesHead(c) {
        HeadFrame(x, c);
      } else {
        StatusFrame(x, c);
      }
  }

  lemma StepOwn(x: State, left: bytes, c: Call) returns (left': bytes)
    requires OwnBuffer(x, left)
    ensures OwnBuffer(Step(x, c).x, left')
    ensures left + Put(c, Step(x, c).answer) == Got(c, Step(x, c).answer) + left'
  {
    assert left + [] == left && [] + left == left;
    if IsRead(c) {
      left' := ReadOwn(x, left, c);
    } else if IsWrite(c) {
      WriteOwn(x, left, c);
      left' := left + Put(c, Step(x, c).answer);
      assert [] + left' == left';
    } else {
      OtherOwn(x, left, c);
      left' := left;
    }
  }

  /** What was in the buffer and what is written is what is read and what remains. */
  lemma {:induction false} Conserves(x: State, calls: seq<Call>, left: bytes) returns (left': bytes)
    requires OwnBuffer(x, left)
    ensures OwnBuffer(Calls(x, calls).x, left')
    ensures left + WrittenBytes(x, calls) == ReadBytes(x, calls) + left'
    decreases |calls|
  {
    if calls == [] {
      left' := left;
      assert left + [] == [] + left;
    } else {
      var c, r := calls[0], Step(x, calls[0]);
      var next := StepOwn(x, left, c);
      if r.answer.Panic? {
        left' := next;
        assert Put(c, r.answer) + [] == Put(c, r.answer) && Got(c, r.answer) + [] == Got(c, r.answer);
      } else {
        left' := Conserves(r.x, calls[1..], next);
        Rearrange(left, Put(c, r.answer), WrittenBytes(r.x, calls[1..]), Got(c, r.answer), next,
                  ReadBytes(r.x, calls[1..]), left');
      }
    }
  }

  lemma Rearrange(left: bytes, put: bytes, puts: bytes, got: bytes, next: bytes, gots: bytes, end: bytes)
    requires left + put == got + next && next + puts == gots + end
    ensures left + (put + puts) == (got + gots) + end
  {
    assert left + (put + puts) == (left + put) + puts;
    assert got + next + puts == got + (next + puts);
    assert got + (gots + end) == (got + gots) + end;
  }

  lemma NextReadsWhatIsLeft(x: State, left: bytes)
    requires OwnBuffer(x, left)
    ensures var y := ResetBody(CloseRequest(x)); Rest(y.bodies, y.body) == left
  {
    var i := x.requestWriter.value;
    LeadsToRest(x.bodies, x.body, i);
    if x.bodies[x.body].Recording? {
      assert x.body != i;
      LeadsToRest(x.bodies, x.bodies[x.body].delegate, i);
    }
  }

  lemma FirstWriteOpens(x: State, calls: seq<Call>)
    requires !x.afterNext && x.body < |x.bodies| && x.requestReader.None? && x.requestWriter.None?
    requires calls != [] && IsWrite(calls[0])
    ensures var y := ResetBody(CloseRequest(Calls(x, calls).x));
            ReadBytes(x, calls) + Rest(y.bodies, y.body) == WrittenBytes(x, calls)
  {
    var y := OpenRequestWriter(x);
    assert OwnBuffer(y, []);
    assert Step(x, calls[0]) == Step(y, calls[0]);
    var left := Conserves(y, calls, []);
    assert [] + WrittenBytes(y, calls) == WrittenBytes(y, calls);
    NextReadsWhatIsLeft(Calls(y, calls).x, left);
  }

  /** If the guest writes before it reads, its reads and then the next handler get
      exactly what it wrote, in order; so the next handler gets all of it if and only
      if the guest read none of it. */
  lemma {:induction false} ReadsComeOutOfTheWrites(x: State, calls: seq<Call>)
    requires !x.afterNext && Chained(x.bodies) && x.body < |x.bodies|
    requires x.requestReader.None? && x.requestWriter.None?
    requires WriterFirst(calls) && Calls(x, calls).x.requestWriter.Some?
    ensures var y := ResetBody(CloseRequest(Calls(x, calls).x));
            && ReadBytes(x, calls) + Rest(y.bodies, y.body) == WrittenBytes(x, calls)
            && (Rest(y.bodies, y.body) == WrittenBytes(x, calls) <==> ReadBytes(x, calls) == [])
    decreases |calls|
  {
    var c := calls[0];
    if IsWrite(c) {
      FirstWriteOpens(x, calls);
    } else {
      OtherKeepsShape(x, Rest(x.bodies, x.body), [], c);
      assert !Step(x, c).answer.Panic?;
      ReadsComeOutOfTheWrites(Step(x, c).x, calls[1..]);
      assert [] + ReadBytes(Step(x, c).x, calls[1..]) == ReadBytes(Step(x, c).x, calls[1..]);
      assert [] + WrittenBytes(Step(x, c).x, calls[1..]) == WrittenBytes(Step(x, c).x, calls[1..]);
    }
  }
}
