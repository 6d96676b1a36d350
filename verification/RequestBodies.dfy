/** Request bodies as objects, and read_body on them. A body is a stream from the
    server, a bytes.Buffer, or a bufferingRequestBody around an earlier body; a request
    may end up with any number of wrappers. Reading through them, whatever the stream
    does, is what module Exchange says of the values. */
module RequestBodies {
  import opened Abi
  import opened BodyStream
  import opened RequestBuffer
  import RequestFlow
  import E = Exchange

  /** Whether the bytes behind body i come from the server. */
  predicate FromServer(bodies: seq<E.Body>, i: nat) {
    var leaf := E.Leaf(bodies, i);
    leaf < |bodies| && bodies[leaf].Stream?
  }

  /** How reading body i ends. */
  function Fate(bodies: seq<E.Body>, i: nat): ReadErr {
    if FromServer(bodies, i) && bodies[E.Leaf(bodies, i)].fails then Failure else EOF
  }

  /** Object i is the body that bodies[i] describes. */
  ghost predicate Shown(objects: seq<RequestBody>, r: Reader, bodies: seq<E.Body>, i: nat)
    requires r.Valid() && i < |objects| == |bodies|
    reads objects[i], r, r.data
  {
    var o := objects[i];
    o.number == i &&
    match bodies[i]
    case Stream(rest, fails) =>
      i == 0 && o.stream == r && o.delegate == null && rest == r.Rest() && fails == (r.fate == Failure)
    case Buffer(content) => o.stream == null && o.delegate == null && o.content == content
    case Recording(d, record) => o.stream == null && d < i && o.delegate == objects[d] && o.content == record
  }

  /** The bodies of a request, in the order they were made; only the first can be the
      server's. */
  ghost predicate Shows(objects: seq<RequestBody>, r: Reader, bodies: seq<E.Body>)
    reads objects, r, r.data
  {
    r.Valid() && |objects| == |bodies| && forall i :: 0 <= i < |objects| ==> Shown(objects, r, bodies, i)
  }

  lemma ShowsChain(objects: seq<RequestBody>, r: Reader, bodies: seq<E.Body>)
    requires Shows(objects, r, bodies)
    ensures RequestFlow.Chained(bodies)
  {
    forall i | 0 <= i < |bodies| && bodies[i].Recording? ensures bodies[i].delegate < i {
      assert Shown(objects, r, bodies, i);
    }
  }

  /** What an object's fields say of its place in the chain. */
  lemma Unwrapping(objects: seq<RequestBody>, r: Reader, bodies: seq<E.Body>, i: nat)
    requires Shows(objects, r, bodies) && i < |objects|
    ensures var o := objects[i];
            && o.number == i
            && (o.stream != null <==> bodies[i].Stream?) && (o.delegate != null <==> bodies[i].Recording?)
            && (o.delegate == null ==> E.Leaf(bodies, i) == i && E.Rest(bodies, i) == E.Bytes(bodies[i]))
            && (o.delegate != null ==>
                  && o.delegate.number == bodies[i].delegate < i && objects[o.delegate.number] == o.delegate
                  && E.Leaf(bodies, i) == E.Leaf(bodies, o.delegate.number)
                  && E.Rest(bodies, i) == E.Rest(bodies, o.delegate.number))
  {
    assert Shown(objects, r, bodies, i);
    if bodies[i].Recording? {
      assert Shown(objects, r, bodies, bodies[i].delegate);
    }
  }

  /** The body a request refers to through an interface: `stream` is set in one from
      the server, `delegate` in a wrapper, and neither in a buffer. */
  class RequestBody {
    ghost const number: nat
    const stream: Reader?
    const delegate: RequestBody?
    /** The unread bytes of a buffer, or what a wrapper has recorded. */
    var content: bytes
    ghost var log: seq<Chunk>

    constructor FromStream(stream: Reader, ghost number: nat)
      ensures this.number == number && this.stream == stream && delegate == null && log == []
    {
      this.number, this.stream, delegate, content, log := number, stream, null, [], [];
    }

    constructor Buffer(content: bytes, ghost number: nat)
      ensures this.number == number && stream == null && delegate == null && this.content == content && log == []
    {
      this.number, stream, delegate, this.content, log := number, null, null, content, [];
    }

    constructor Wrap(delegate: RequestBody, ghost number: nat)
      ensures this.number == number && stream == null && this.delegate == delegate && content == [] && log == []
    {
      this.number, stream, this.delegate, content, log := number, null, delegate, [], [];
    }

    /** Read. A buffer reports its end alone; a wrapper records what its delegate
        returns together with an error. */
    method Read(mem: array<byte>, off: nat, len: nat, ghost objects: seq<RequestBody>, ghost r: Reader,
                ghost bodies: seq<E.Body>)
      returns (n: nat, err: ReadErr)
      requires Shows(objects, r, bodies) && number < |objects| && objects[number] == this
      requires off + len <= mem.Length && mem != r.data
      modifies objects, r, mem
      ensures n <= len && n <= |E.Rest(bodies, number)|
      ensures mem[off..off + n] == E.Rest(bodies, number)[..n]
      ensures forall i :: 0 <= i < mem.Length && !(off <= i < off + len) ==> mem[i] == old(mem[i])
      ensures Shows(objects, r, E.Consume(bodies, number, n, if err != Nil then E.Rest(bodies, number)[..n] else []))
      ensures err != Nil ==> n == |E.Rest(bodies, number)| && err == Fate(bodies, number)
      ensures err != Nil && !FromServer(bodies, number) ==> n == 0
      ensures r.patience <= old(r.patience)
      ensures err == Nil && n == 0 && len > 0 ==> r.patience < old(r.patience)
      ensures forall j :: number < j < |objects| ==> objects[j].log == old(objects[j].log)
      ensures delegate != null ==> log == old(log) + [Chunk(E.Rest(bodies, number)[..n], err != Nil)]
      decreases number, 1
    {
      Unwrapping(objects, r, bodies, number);
      if stream != null {
        n, err := ReadStream(mem, off, len, objects, r, bodies);
      } else if delegate != null {
        n, err := ReadWrapped(mem, off, len, objects, r, bodies);
      } else {
        n, err := ReadBuffer(mem, off, len, objects, r, bodies);
      }
    }

    method ReadStream(mem: array<byte>, off: nat, len: nat, ghost objects: seq<RequestBody>, ghost r: Reader,
                      ghost bodies: seq<E.Body>)
      returns (n: nat, err: ReadErr)
      requires Shows(objects, r, bodies) && number < |objects| && objects[number] == this && stream != null
      requires off + len <= mem.Length && mem != r.data
      modifies r, mem
      ensures n <= len && n <= |E.Rest(bodies, number)|
      ensures mem[off..off + n] == E.Rest(bodies, number)[..n]
      ensures forall i :: 0 <= i < mem.Length && !(off <= i < off + len) ==> mem[i] == old(mem[i])
      ensures Shows(objects, r, E.Consume(bodies, number, n, if err != Nil then E.Rest(bodies, number)[..n] else []))
      ensures err != Nil ==> n == |E.Rest(bodies, number)| && err == Fate(bodies, number)
      ensures r.patience <= old(r.patience)
      ensures err == Nil && n == 0 && len > 0 ==> r.patience < old(r.patience)
    {
      Unwrapping(objects, r, bodies, number);
      assert Shown(objects, r, bodies, number);
      ghost var rest := r.Rest();
      n, err := stream.Read(mem, off, len);
      assert r.Rest() == rest[n..];
      ghost var now := E.Consume(bodies, number, n, []);
      forall i | 0 <= i < |objects| ensures Shown(objects, r, now, i) {
        assert old(Shown(objects, r, bodies, i));
      }
    }

    method ReadBuffer(mem: array<byte>, off: nat, len: nat, ghost objects: seq<RequestBody>, ghost r: Reader,
                      ghost bodies: seq<E.Body>)
      returns (n: nat, err: ReadErr)
      requires Shows(objects, r, bodies) && number < |objects| && objects[number] == this
      requires stream == null && delegate == null
      requires off + len <= mem.Length && mem != r.data
      modifies this`content, mem
      ensures n <= len && n <= |E.Rest(bodies, number)|
      ensures mem[off..off + n] == E.Rest(bodies, number)[..n]
      ensures forall i :: 0 <= i < mem.Length && !(off <= i < off + len) ==> mem[i] == old(mem[i])
      ensures Shows(objects, r, E.Consume(bodies, number, n, []))
      ensures err != Nil ==> n == |E.Rest(bodies, number)| == 0 && err == EOF
      ensures err == Nil && n == 0 ==> len == 0
    {
      Unwrapping(objects, r, bodies, number);
      assert Shown(objects, r, bodies, number);
      if content == [] {
        n, err := 0, if len == 0 then Nil else EOF;
      } else {
        n, err := Min(len, |content|), Nil;
        forall i | 0 <= i < n {
          mem[off + i] := content[i];
        }
        content := content[n..];
      }
      ghost var now := E.Consume(bodies, number, n, []);
      forall i | 0 <= i < |objects| ensures Shown(objects, r, now, i) {
        assert old(Shown(objects, r, bodies, i));
      }
    }

    method ReadWrapped(mem: array<byte>, off: nat, len: nat, ghost objects: seq<RequestBody>, ghost r: Reader,
                       ghost bodies: seq<E.Body>)
      returns (n: nat, err: ReadErr)
      requires Shows(objects, r, bodies) && number < |objects| && objects[number] == this && delegate != null
      requires off + len <= mem.Length && mem != r.data
      modifies objects, r, mem
      ensures n <= len && n <= |E.Rest(bodies, number)|
      ensures mem[off..off + n] == E.Rest(bodies, number)[..n]
      ensures forall i :: 0 <= i < mem.Length && !(off <= i < off + len) ==> mem[i] == old(mem[i])
      ensures Shows(objects, r, E.Consume(bodies, number, n, if err != Nil then E.Rest(bodies, number)[..n] else []))
      ensures err != Nil ==> n == |E.Rest(bodies, number)| && err == Fate(bodies, number)
      ensures err != Nil && !FromServer(bodies, number) ==> n == 0
      ensures r.patience <= old(r.patience)
      ensures err == Nil && n == 0 && len > 0 ==> r.patience < old(r.patience)
      ensures forall j :: number < j < |objects| ==> objects[j].log == old(objects[j].log)
      ensures log == old(log) + [Chunk(E.Rest(bodies, number)[..n], err != Nil)]
      decreases number, 0
    {
      Unwrapping(objects, r, bodies, number);
      n, err := delegate.Read(mem, off, len, objects, r, bodies);
      ghost var data := E.Rest(bodies, number)[..n];
      ghost var recorded := if err != Nil then data else [];
      ghost var inner := E.Consume(bodies, delegate.number, n, recorded);
      forall i | 0 <= i < |objects| ensures Shown(objects, r, inner, i) && (i != number ==> objects[i] != this) {
        assert Shown(objects, r, inner, i);
      }
      label Before:
      ghost var record := content;
      if err != Nil && n > 0 {
        content := content + mem[off..off + n];
      }
      assert content == record + recorded;
      log := log + [Chunk(data, err != Nil)];
      ghost var now := E.Consume(bodies, number, n, recorded);
      forall i | 0 <= i < |objects| ensures Shown(objects, r, now, i) {
        assert old@Before(Shown(objects, r, inner, i));
      }
    }
  }

  // ---- Reading more than once ----

  /** Object i and what it wraps are below everything changed at j. */
  lemma {:induction false} ConsumeBelow(bodies: seq<E.Body>, i: nat, n: nat, recorded: bytes, j: nat, b: E.Body)
    requires i < j < |bodies|
    ensures E.Consume(bodies[j := b], i, n, recorded) == E.Consume(bodies, i, n, recorded)[j := b]
    decreases i
  {
    if bodies[i].Recording? && bodies[i].delegate < i {
      ConsumeBelow(bodies, bodies[i].delegate, n, recorded, j, b);
    }
  }

  /** Two reads, the first without an error, are one. */
  lemma {:induction false} ConsumeTwice(bodies: seq<E.Body>, i: nat, n: nat, m: nat, recorded: bytes)
    requires i < |bodies| && RequestFlow.Chained(bodies) && n + m <= |E.Rest(bodies, i)|
    ensures E.Consume(E.Consume(bodies, i, n, []), i, m, recorded) == E.Consume(bodies, i, n + m, recorded)
    decreases i
  {
    match bodies[i]
    case Stream(rest, _) => assert rest[n..][m..] == rest[n + m..];
    case Buffer(content) => assert content[n..][m..] == content[n + m..];
    case Recording(d, record) =>
      ConsumeTwice(bodies, d, n, m, recorded);
      assert record + [] == record;
      ConsumeBelow(E.Consume(bodies, d, n, []), d, m, recorded, i, E.Recording(d, record));
  }

  /** Reading leaves the server's stream the server's stream. */
  lemma {:induction false} ConsumeKeepsFate(bodies: seq<E.Body>, i: nat, n: nat, recorded: bytes)
    requires i < |bodies| && RequestFlow.Chained(bodies) && n <= |E.Rest(bodies, i)|
    ensures var r := E.Consume(bodies, i, n, recorded);
            && RequestFlow.Chained(r) && E.Leaf(r, i) == E.Leaf(bodies, i) && E.Rest(r, i) == E.Rest(bodies, i)[n..]
            && FromServer(r, i) == FromServer(bodies, i) && Fate(r, i) == Fate(bodies, i)
  {
    RequestFlow.ConsumeAdvances(bodies, i, n, recorded);
    RequestFlow.LeafBelow(bodies, i);
    KindStays(bodies, i, n, recorded, E.Leaf(bodies, i));
  }

  lemma {:induction false} KindStays(bodies: seq<E.Body>, i: nat, n: nat, recorded: bytes, j: nat)
    requires i < |bodies| && j < |bodies|
    ensures var b, c := bodies[j], E.Consume(bodies, i, n, recorded)[j];
            (b.Stream? <==> c.Stream?) && (b.Buffer? <==> c.Buffer?) && (b.Stream? ==> b.fails == c.fails)
    decreases i
  {
    if bodies[i].Recording? && bodies[i].delegate < i {
      KindStays(bodies, bodies[i].delegate, n, recorded, j);
    }
  }

  // ---- readBody ----

  /** What the loop may come back with: the chunk, and the bytes at its end that came
      together with the error. */
  ghost predicate Outcome(bodies: seq<E.Body>, i: nat, limit: nat, n: nat, err: ReadErr, last: nat) {
    var left := E.Rest(bodies, i);
    && n == Min(limit, |left|) && last <= n
    && (err == Nil ==> n == limit && last == 0)
    && (err != Nil ==>
          n == |left| && err == Fate(bodies, i) && (n == limit ==> last > 0) && (!FromServer(bodies, i) ==> last == 0))
  }

  /** Where the loop is: the bodies are `now` as if n bytes had been read at once. */
  ghost predicate Progress(bodies: seq<E.Body>, i: nat, limit: nat, n: nat, err: ReadErr, last: nat, now: seq<E.Body>) {
    var left := E.Rest(bodies, i);
    && n <= limit && n <= |left| && last <= n
    && now == E.Consume(bodies, i, n, left[..n][n - last..])
    && (err == Nil ==> last == 0)
    && (err != Nil ==> Outcome(bodies, i, limit, n, err, last))
  }

  lemma StillReading(bodies: seq<E.Body>, i: nat, limit: nat, n: nat, now: seq<E.Body>)
    requires i < |bodies| && RequestFlow.Chained(bodies) && Progress(bodies, i, limit, n, Nil, 0, now)
    ensures now == E.Consume(bodies, i, n, []) && E.Rest(now, i) == E.Rest(bodies, i)[n..]
    ensures FromServer(now, i) == FromServer(bodies, i) && Fate(now, i) == Fate(bodies, i)
  {
    assert E.Rest(bodies, i)[..n][n..] == [];
    ConsumeKeepsFate(bodies, i, n, []);
  }

  /** One more read. */
  lemma Advance(bodies: seq<E.Body>, i: nat, limit: nat, n: nat, now: seq<E.Body>, m: nat, err: ReadErr)
    requires i < |bodies| && RequestFlow.Chained(bodies) && Progress(bodies, i, limit, n, Nil, 0, now)
    requires n < limit && n + m <= limit && m <= |E.Rest(now, i)|
    requires err != Nil ==> m == |E.Rest(now, i)| && err == Fate(now, i) && (!FromServer(now, i) ==> m == 0)
    ensures Progress(bodies, i, limit, n + m, err, if err != Nil then m else 0,
                     E.Consume(now, i, m, if err != Nil then E.Rest(now, i)[..m] else []))
    ensures n + m <= |E.Rest(bodies, i)|
    ensures E.Rest(bodies, i)[..n] + E.Rest(now, i)[..m] == E.Rest(bodies, i)[..n + m]
  {
    StillReading(bodies, i, limit, n, now);
    var left := E.Rest(bodies, i);
    Joined(left, n, m);
    ConsumeTwice(bodies, i, n, m, if err != Nil then left[n..][..m] else []);
    assert left[..n + m][n + m..] == [];
  }

  /** r.Read(b[n:]): what is read lands behind what is there. */
  method ReadBehind(mem: array<byte>, buf: nat, n: nat, bufLimit: nat, b: RequestBody, ghost objects: seq<RequestBody>,
                    ghost r: Reader, ghost now: seq<E.Body>)
    returns (nn: nat, err: ReadErr)
    requires Shows(objects, r, now) && b.number < |objects| && objects[b.number] == b
    requires mem != r.data && n < bufLimit && buf + bufLimit <= mem.Length
    modifies objects, r, mem
    ensures n + nn <= bufLimit && nn <= |E.Rest(now, b.number)|
    ensures mem[buf..buf + n + nn] == old(mem[buf..buf + n]) + E.Rest(now, b.number)[..nn]
    ensures forall i :: 0 <= i < mem.Length && !(buf <= i < buf + bufLimit) ==> mem[i] == old(mem[i])
    ensures Shows(objects, r, E.Consume(now, b.number, nn, if err != Nil then E.Rest(now, b.number)[..nn] else []))
    ensures err != Nil ==> nn == |E.Rest(now, b.number)| && err == Fate(now, b.number)
    ensures err != Nil && !FromServer(now, b.number) ==> nn == 0
    ensures err == Nil && nn == 0 ==> r.patience < old(r.patience)
  {
    nn, err := b.Read(mem, buf + n, bufLimit - n, objects, r, now);
    assert mem[buf..buf + n] == old(mem[buf..buf + n]);
    assert mem[buf..buf + n + nn] == mem[buf..buf + n] + mem[buf + n..buf + n + nn];
  }

  /** One turn of the loop. */
  method Turn(mem: array<byte>, buf: nat, bufLimit: uint32, n: uint32, b: RequestBody, ghost objects: seq<RequestBody>,
              ghost r: Reader, ghost bodies: seq<E.Body>, ghost now: seq<E.Body>)
    returns (m: uint32, err: ReadErr, ghost last: nat, ghost later: seq<E.Body>)
    requires Shows(objects, r, now) && b.number < |objects| == |bodies| && objects[b.number] == b
    requires mem != r.data && n < bufLimit && buf + bufLimit <= mem.Length && RequestFlow.Chained(bodies)
    requires Progress(bodies, b.number, bufLimit, n, Nil, 0, now) && mem[buf..buf + n] == E.Rest(bodies, b.number)[..n]
    modifies objects, r, mem
    ensures n <= m <= bufLimit && Progress(bodies, b.number, bufLimit, m, err, last, later) && Shows(objects, r, later)
    ensures mem[buf..buf + m] == E.Rest(bodies, b.number)[..m]
    ensures forall i :: 0 <= i < mem.Length && !(buf <= i < buf + bufLimit) ==> mem[i] == old(mem[i])
    ensures m == n && err == Nil ==> r.patience < old(r.patience)
  {
    var nn;
    nn, err := ReadBehind(mem, buf, n, bufLimit, b, objects, r, now);
    Advance(bodies, b.number, bufLimit, n, now, nn, err);
    later := E.Consume(now, b.number, nn, if err != Nil then E.Rest(now, b.number)[..nn] else []);
    m := Wrap32(n + nn);
    last := if err != Nil then nn else 0;
  }

  /** The loop of readBody on any body of the request. */
  method Fill(mem: array<byte>, buf: nat, bufLimit: uint32, b: RequestBody, ghost objects: seq<RequestBody>,
              ghost r: Reader, ghost bodies: seq<E.Body>)
    returns (n: uint32, err: ReadErr, ghost last: nat)
    requires Shows(objects, r, bodies) && b.number < |objects| && objects[b.number] == b
    requires mem != r.data && 0 < bufLimit && buf + bufLimit <= mem.Length
    modifies objects, r, mem
    ensures Outcome(bodies, b.number, bufLimit, n, err, last)
    ensures mem[buf..buf + n] == E.Rest(bodies, b.number)[..n]
    ensures forall i :: 0 <= i < mem.Length && !(buf <= i < buf + bufLimit) ==> mem[i] == old(mem[i])
    ensures Shows(objects, r, E.Consume(bodies, b.number, n, E.Rest(bodies, b.number)[..n][n - last..]))
  {
    ghost var now := bodies;
    n, err, last := 0, Nil, 0;
    ShowsChain(objects, r, bodies);
    ConsumeNothing(bodies, b.number);
    while n < bufLimit && err == Nil
      invariant n <= bufLimit && Progress(bodies, b.number, bufLimit, n, err, last, now) && Shows(objects, r, now)
      invariant mem[buf..buf + n] == E.Rest(bodies, b.number)[..n]
      invariant forall i :: 0 <= i < mem.Length && !(buf <= i < buf + bufLimit) ==> mem[i] == old(mem[i])
      decreases bufLimit - n, err == Nil, r.patience
    {
      n, err, last, now := Turn(mem, buf, bufLimit, n, b, objects, r, bodies, now);
    }
  }

  lemma Joined(left: bytes, n: nat, m: nat)
    requires n + m <= |left|
    ensures left[..n] + left[n..][..m] == left[..n + m]
    ensures left[..n + m][n + m - m..] == left[n..][..m]
    ensures left[n..][m..] == left[n + m..]
  {
  }

  lemma {:induction false} ConsumeNothing(bodies: seq<E.Body>, i: nat)
    requires i < |bodies| && RequestFlow.Chained(bodies)
    ensures E.Consume(bodies, i, 0, []) == bodies
    decreases i
  {
    if bodies[i].Recording? {
      ConsumeNothing(bodies, bodies[i].delegate);
      assert bodies[i].record + [] == bodies[i].record;
    }
  }

  function Told(chunk: bytes, err: ReadErr): E.Answer {
    match err
    case Nil => E.Chunk(chunk, false)
    case EOF => E.Chunk(chunk, true)
    case Failure => E.Panic(E.ReadFailed)
  }

  /** An outcome of the loop is the one module Exchange has for the choices the stream
      made. */
  lemma LoopIsAStep(bodies: seq<E.Body>, i: nat, limit: nat, n: nat, err: ReadErr, last: nat)
    requires i < |bodies| && RequestFlow.Chained(bodies) && 0 < limit && Outcome(bodies, i, limit, n, err, last)
    ensures E.ReadThrough(bodies, i, limit, E.Chunking(err != Nil, last))
            == (E.Consume(bodies, i, n, E.Rest(bodies, i)[..n][n - last..]), Told(E.Rest(bodies, i)[..n], err))
  {
    RequestFlow.LeafBelow(bodies, i);
  }

  /** readBody on any body of the request: `chunking` is what the stream did. */
  method ReadFrom(mem: array<byte>, buf: uint32, bufLimit: uint32, b: RequestBody, ghost objects: seq<RequestBody>,
                  ghost r: Reader, ghost bodies: seq<E.Body>)
    returns (answer: E.Answer, ghost chunking: E.Chunking)
    requires Shows(objects, r, bodies) && b.number < |objects| && objects[b.number] == b && mem != r.data
    modifies objects, r, mem
    ensures !InMemory(mem.Length, buf, bufLimit) ==>
              && answer == E.Panic(if bufLimit == 0 then E.BadArgument else E.OutOfMemory)
              && Shows(objects, r, bodies) && mem[..] == old(mem[..])
    ensures InMemory(mem.Length, buf, bufLimit) ==>
              var (now, told) := E.ReadThrough(bodies, b.number, bufLimit, chunking);
              answer == told && Shows(objects, r, now)
    ensures answer.Chunk? ==>
              |answer.data| <= bufLimit && buf + bufLimit <= mem.Length && mem[buf..buf + |answer.data|] == answer.data
    ensures forall i :: 0 <= i < mem.Length && !(buf <= i < buf + bufLimit) ==> mem[i] == old(mem[i])
  {
    if bufLimit == 0 {
      return E.Panic(E.BadArgument), E.Chunking(false, 0);
    }
    if buf + bufLimit > mem.Length {
      return E.Panic(E.OutOfMemory), E.Chunking(false, 0);
    }
    ShowsChain(objects, r, bodies);
    var n, err, last := Fill(mem, buf, bufLimit, b, objects, r, bodies);
    LoopIsAStep(bodies, b.number, bufLimit, n, err, last);
    answer, chunking := Told(mem[buf..buf + n], err), E.Chunking(err != Nil, last);
  }

  // ---- The request's body, and the reader and writer kept of it ----

  /** s.r.Body with the requestBodyReader and requestBodyWriter that lead to it. */
  class RequestSide {
    const stream: Reader
    var body: RequestBody
    var reader: RequestBody?
    var readerNumber: nat
    var writer: RequestBody?
    ghost var objects: seq<RequestBody>
    ghost var bodies: seq<E.Body>
    ghost var Repr: set<object>

    constructor (stream: Reader)
      requires stream.Valid()
      ensures Valid() && fresh(Repr - {stream, stream.data}) && this.stream == stream
      ensures bodies == [E.Stream(stream.Rest(), stream.fate == Failure)]
      ensures body.number == 0 && reader == null && writer == null
    {
      this.stream := stream;
      body := new RequestBody.FromStream(stream, 0);
      reader, readerNumber, writer := null, 0, null;
      new;
      objects, bodies := [body], [E.Stream(stream.Rest(), stream.fate == Failure)];
      Repr := {this, stream, stream.data, body};
    }

    ghost predicate Known(o: RequestBody)
      reads this
    {
      o.number < |objects| && objects[o.number] == o
    }

    ghost predicate Valid()
      reads this, Repr
    {
      && this in Repr && stream in Repr && stream.data in Repr && (forall o :: o in objects ==> o in Repr)
      && Shows(objects, stream, bodies)
      && Known(body) && (reader != null ==> Known(reader))
      && (writer != null ==> Known(writer) && bodies[writer.number].Buffer?)
    }

    ghost function Reading(): Option<E.BodyReader>
      reads this
    {
      if reader == null then None else Some(E.BodyReader(readerNumber, reader.number))
    }

    ghost function Writing(): Option<nat>
      reads this
    {
      if writer == null then None else Some(writer.number)
    }

    /** A new body joins those there are. */
    ghost method Add(o: RequestBody, b: E.Body)
      requires Shows(objects, stream, bodies) && o.number == |objects| && o.stream == null && !b.Stream?
      requires match b
               case Stream(_, _) => false
               case Buffer(content) => o.delegate == null && o.content == content
               case Recording(d, record) => d < |objects| && o.delegate == objects[d] && o.content == record
      modifies this`objects, this`bodies, this`Repr
      ensures objects == old(objects) + [o] && bodies == old(bodies) + [b] && Repr == old(Repr) + {o}
      ensures Shows(objects, stream, bodies)
    {
      ghost var before, described := objects, bodies;
      objects, bodies, Repr := objects + [o], bodies + [b], Repr + {o};
      forall i | 0 <= i < |objects| ensures Shown(objects, stream, bodies, i) {
        assert i < |before| ==> Shown(before, stream, described, i);
      }
    }

    /** s.r.Body = &bufferingRequestBody{delegate: s.r.Body} */
    method Wrap()
      requires Valid()
      modifies this`body, this`objects, this`bodies, this`Repr
      ensures Valid() && fresh(Repr - old(Repr))
      ensures bodies == old(bodies) + [E.Recording(old(body).number, [])] && body.number == |old(bodies)|
      ensures body.delegate == old(body) && fresh(body) && body.log == []
    {
      var wrapper := new RequestBody.Wrap(body, |objects|);
      Add(wrapper, E.Recording(body.number, []));
      body := wrapper;
    }

    /** The reader is the body as it is at the first read_body. */
    method OpenReader(number: nat)
      requires Valid()
      modifies this`reader, this`readerNumber
      ensures Valid() && reader != null
      ensures Reading() == if old(reader) == null then Some(E.BodyReader(number, body.number)) else old(Reading())
    {
      if reader == null {
        reader, readerNumber := body, number;
      }
    }

    /** read_body once there is a reader. */
    method Read(mem: array<byte>, buf: uint32, limit: uint32) returns (answer: E.Answer, ghost chunking: E.Chunking)
      requires Valid() && reader != null && mem !in Repr
      modifies Repr, mem
      ensures Valid() && Repr == old(Repr) && body == old(body) && reader == old(reader) && writer == old(writer)
      ensures readerNumber == old(readerNumber)
      ensures if InMemory(mem.Length, buf, limit)
              then (bodies, answer) == E.ReadThrough(old(bodies), reader.number, limit, chunking)
              else bodies == old(bodies) && answer == E.Panic(if limit == 0 then E.BadArgument else E.OutOfMemory)
                   && mem[..] == old(mem[..])
      ensures answer.Chunk? ==>
                |answer.data| <= limit && buf + limit <= mem.Length && mem[buf..buf + |answer.data|] == answer.data
      ensures forall i :: 0 <= i < mem.Length && !(buf <= i < buf + limit) ==> mem[i] == old(mem[i])
    {
      answer, chunking := ReadFrom(mem, buf, limit, reader, objects, stream, bodies);
      if InMemory(mem.Length, buf, limit) {
        ghost var before := bodies;
        bodies := E.ReadThrough(bodies, reader.number, limit, chunking).0;
        WritersStay(before, reader.number, limit, chunking);
      }
    }

    /** One Read of the body, as anybody may do who has it. */
    method ReadOnce(mem: array<byte>, off: nat, len: nat) returns (n: nat, err: ReadErr)
      requires Valid() && mem !in Repr && off + len <= mem.Length
      modifies Repr, mem
      ensures Valid() && Repr == old(Repr) && body == old(body)
      ensures n <= len && n <= |E.Rest(old(bodies), body.number)|
      ensures var data := E.Rest(old(bodies), body.number)[..n];
              && mem[off..off + n] == data
              && bodies == E.Consume(old(bodies), body.number, n, if err != Nil then data else [])
              && (err != Nil ==> n == |E.Rest(old(bodies), body.number)|)
              && (body.delegate != null ==> body.log == old(body.log) + [Chunk(data, err != Nil)])
    {
      ghost var i, before := body.number, bodies;
      n, err := body.Read(mem, off, len, objects, stream, bodies);
      bodies := E.Consume(bodies, i, n, if err != Nil then E.Rest(bodies, i)[..n] else []);
      if writer != null {
        KindStays(before, i, n, if err != Nil then E.Rest(before, i)[..n] else [], writer.number);
      }
    }

    /** The first write_body makes a new buffer the body. */
    method OpenWriter()
      requires Valid()
      modifies this`body, this`writer, this`objects, this`bodies, this`Repr
      ensures Valid() && fresh(Repr - old(Repr)) && writer != null
      ensures if old(writer) == null
              then bodies == old(bodies) + [E.Buffer([])] && body == writer && body.number == |old(bodies)|
              else bodies == old(bodies) && body == old(body) && writer == old(writer)
    {
      if writer == null {
        writer := new RequestBody.Buffer([], |objects|);
        Add(writer, E.Buffer([]));
        body := writer;
      }
    }

    /** Write of the buffer the writer is. */
    method Write(data: bytes)
      requires Valid() && writer != null
      modifies writer`content, this`bodies
      ensures Valid()
      ensures bodies == old(bodies)[writer.number := E.Buffer(old(bodies)[writer.number].content + data)]
    {
      ghost var i, before := writer.number, bodies;
      Unwrapping(objects, stream, bodies, i);
      assert Shown(objects, stream, bodies, i);
      writer.content := writer.content + data;
      bodies := bodies[i := E.Buffer(bodies[i].content + data)];
      forall j | 0 <= j < |objects| ensures Shown(objects, stream, bodies, j) {
        assert old(Shown(objects, stream, bodies, j));
      }
    }

    /** closeRequest of handler/state.go */
    method Close()
      requires Valid()
      modifies this`reader, this`writer
      ensures Valid() && reader == null && writer == null
    {
      reader, writer := null, null;
    }

    /** The part of handleNext that resets the body: a wrapper that recorded nothing
        makes way for its delegate, any other for its record. */
    method HandOn()
      requires Valid()
      modifies this`body, this`objects, this`bodies, this`Repr
      ensures Valid() && fresh(Repr - old(Repr))
      ensures match old(bodies)[old(body).number]
              case Recording(d, record) =>
                if record == [] then bodies == old(bodies) && body.number == d
                else bodies == old(bodies) + [E.Buffer(record)] && body.number == |old(bodies)|
              case _ => bodies == old(bodies) && body == old(body)
    {
      Unwrapping(objects, stream, bodies, body.number);
      assert Shown(objects, stream, bodies, body.number);
      if body.delegate != null {
        if |body.content| == 0 {
          body := body.delegate;
        } else {
          var buffer := new RequestBody.Buffer(body.content, |objects|);
          Add(buffer, E.Buffer(body.content));
          body := buffer;
        }
      }
    }
  }

  /** A read takes the front of what is left; it reports the end only there, and fails
      only where the body fails. */
  lemma ReadTakesFront(bodies: seq<E.Body>, i: nat, limit: nat, c: E.Chunking)
    requires i < |bodies| && RequestFlow.Chained(bodies) && 0 < limit
    ensures var left, (now, told) := E.Rest(bodies, i), E.ReadThrough(bodies, i, limit, c);
            && |now| == |bodies| && RequestFlow.Chained(now) && Fate(now, i) == Fate(bodies, i)
            && match told
               case Chunk(data, eof) =>
                 && data + E.Rest(now, i) == left && (eof ==> E.Rest(now, i) == [] && Fate(bodies, i) == EOF)
                 && (!eof ==> data != [])
               case _ => told.Panic? && E.Rest(now, i) == [] && Fate(bodies, i) == Failure
  {
    var left := E.Rest(bodies, i);
    var n := Min(limit, |left|);
    var recorded := AnswerOf(bodies, i, limit, c);
    ConsumeKeepsFate(bodies, i, n, recorded);
    assert left[..n] + left[n..] == left;
  }

  lemma AnswerOf(bodies: seq<E.Body>, i: nat, limit: nat, c: E.Chunking) returns (recorded: bytes)
    requires i < |bodies| && RequestFlow.Chained(bodies)
    ensures var left, (now, told) := E.Rest(bodies, i), E.ReadThrough(bodies, i, limit, c);
            var n := Min(limit, |left|);
            && now == E.Consume(bodies, i, n, recorded)
            && match told
               case Chunk(data, eof) =>
                 data == left[..n] && if eof then n == |left| && Fate(bodies, i) == EOF else n == limit
               case _ => told.Panic? && n == |left| && Fate(bodies, i) == Failure
  {
    RequestFlow.LeafBelow(bodies, i);
    var b := bodies[E.Leaf(bodies, i)];
    var n := Min(limit, |E.Bytes(b)|);
    recorded := E.Bytes(b)[..n][n - E.TailOf(b, limit, n, c)..];
  }

  /** A guest that calls read_body with any sequence of limits until the EOF flag is set
      and joins the chunks has the whole body, through however many wrappers; a stream
      that ends in an error traps it. */
  method ReadToEof(side: RequestSide, mem: array<byte>, buf: uint32, limits: nat -> uint32)
    returns (body: bytes, ok: bool, calls: nat)
    requires side.Valid() && side.reader != null && mem !in side.Repr
    requires forall i: nat :: InMemory(mem.Length, buf, limits(i))
    modifies side.Repr, mem
    ensures side.Valid() && side.reader == old(side.reader)
    ensures E.Rest(side.bodies, side.reader.number) == []
    ensures ok <==> Fate(old(side.bodies), side.reader.number) == EOF
    ensures ok ==> body == old(E.Rest(side.bodies, side.reader.number))
    ensures 1 <= calls <= |old(E.Rest(side.bodies, side.reader.number))| + 1
  {
    ghost var i := side.reader.number;
    ghost var original, fate := E.Rest(side.bodies, i), Fate(side.bodies, i);
    body, ok, calls := [], false, 0;
    while !ok
      invariant side.Valid() && side.Repr == old(side.Repr) && side.reader == old(side.reader)
      invariant Fate(side.bodies, i) == fate && body + E.Rest(side.bodies, i) == original
      invariant if ok then E.Rest(side.bodies, i) == [] && fate == EOF && 1 <= calls <= |body| + 1 else calls <= |body|
      decreases |original| - |body|, !ok
    {
      var limit := limits(calls);
      assert InMemory(mem.Length, buf, limit);
      ghost var before := side.bodies;
      ShowsChain(side.objects, side.stream, side.bodies);
      var answer, chunking := side.Read(mem, buf, limit);
      ReadTakesFront(before, i, limit, chunking);
      calls := calls + 1;
      if answer.Panic? {
        return;
      }
      assert body + (answer.data + E.Rest(side.bodies, i)) == body + answer.data + E.Rest(side.bodies, i);
      body, ok := body + answer.data, answer.eof;
    }
  }

  lemma WritersStay(bodies: seq<E.Body>, i: nat, limit: nat, c: E.Chunking)
    requires i < |bodies|
    ensures var now := E.ReadThrough(bodies, i, limit, c).0;
            |now| == |bodies| && forall j :: 0 <= j < |bodies| && bodies[j].Buffer? ==> now[j].Buffer?
  {
    var leaf := E.Leaf(bodies, i);
    if leaf < |bodies| {
      var n := Min(limit, |E.Bytes(bodies[leaf])|);
      var recorded := E.Bytes(bodies[leaf])[..n][n - E.TailOf(bodies[leaf], limit, n, c)..];
      forall j | 0 <= j < |bodies| && bodies[j].Buffer? ensures E.Consume(bodies, i, n, recorded)[j].Buffer? {
        KindStays(bodies, i, n, recorded, j);
      }
    }
  }

  // ---- Replay ----

  /** A stream is wrapped and read through its wrapper, any number of times with any
      buffer sizes, and handed on: whatever the stream does, next gets the original body
      from the first byte that a read without an error returned. */
  method ReadAndHandOn(mem: array<byte>, sizes: seq<nat>, stream: Reader)
    returns (side: RequestSide, ghost log: seq<Chunk>)
    requires stream.Valid() && mem != stream.data && forall i :: 0 <= i < |sizes| ==> sizes[i] <= mem.Length
    modifies stream, stream.data, mem
    ensures side.Valid() && fresh(side)
    ensures var original := old(stream.Rest());
            && |log| == |sizes| && ReadsOf(original, log) && Silent(log) <= |original|
            && E.Rest(side.bodies, side.body.number) == original[Silent(log)..]
  {
    ghost var original := stream.Rest();
    side := new RequestSide(stream);
    side.Wrap();
    log := [];
    assert side.bodies == [E.Stream(original, stream.fate == Failure), E.Recording(0, [])];
    for i := 0 to |sizes|
      invariant side.Valid() && fresh(side) && mem !in side.Repr && side.body.number == 1 && side.body.delegate != null
      invariant fresh(side.Repr - {stream, stream.data})
      invariant |log| == i && ReadsOf(original, log) && side.body.log == log
      invariant Wrapped(original, log, side.bodies)
    {
      ghost var before := side.bodies;
      var n, err := side.ReadOnce(mem, 0, sizes[i]);
      ghost var data := E.Rest(before, 1)[..n];
      WrappedRead(original, log, before, n, err != Nil);
      log := log + [Chunk(data, err != Nil)];
    }
    ReplayFromSilent(original, log);
    side.HandOn();
  }

  /** One wrapper around one stream, after the reads in the log. */
  ghost predicate Wrapped(original: bytes, log: seq<Chunk>, bodies: seq<E.Body>) {
    && |bodies| == 2 && bodies[0].Stream? && bodies[1] == E.Recording(0, Recorded(log))
    && Delivered(log) + bodies[0].rest == original
  }

  lemma WrappedRead(original: bytes, log: seq<Chunk>, bodies: seq<E.Body>, n: nat, withErr: bool)
    requires Wrapped(original, log, bodies) && ReadsOf(original, log)
    requires n <= |E.Rest(bodies, 1)| && (withErr ==> n == |E.Rest(bodies, 1)|)
    ensures E.Rest(bodies, 1) == bodies[0].rest
    ensures var data := bodies[0].rest[..n];
            && ReadsOf(original, log + [Chunk(data, withErr)])
            && Wrapped(original, log + [Chunk(data, withErr)], E.Consume(bodies, 1, n, if withErr then data else []))
  {
    assert E.Leaf(bodies, 0) == 0 && E.Leaf(bodies, 1) == 0;
    var rest := bodies[0].rest;
    var chunk := Chunk(rest[..n], withErr);
    AppendChunk(original, log, chunk);
    assert Delivered(log) + rest[..n] + rest[n..] == Delivered(log) + rest;
    assert withErr ==> rest[n..] == [];
    assert E.Consume(bodies, 0, n, if withErr then chunk.data else [])[0] == E.Stream(rest[n..], bodies[0].fails);
    assert Recorded(log) + [] == Recorded(log);
  }
}
