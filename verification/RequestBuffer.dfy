/** The buffering request body of handler/nethttp/buffer.go and what the next
    handler reads after handleNext has taken it apart. */
module RequestBuffer {
  import opened Abi
  import opened GuestLog
  import E = Exchange

  /** One read of the delegate: the bytes it returned and whether an error came
      with them. */
  datatype Chunk = Chunk(data: bytes, withErr: bool)

  /** Everything the delegate returned. */
  function Delivered(log: seq<Chunk>): bytes {
    if log == [] then [] else Delivered(log[..|log| - 1]) + log[|log| - 1].data
  }

  /** What the wrapper records: only chunks that come with an error. */
  function Recorded(log: seq<Chunk>): bytes {
    if log == [] then []
    else Recorded(log[..|log| - 1]) + (if log[|log| - 1].withErr then log[|log| - 1].data else [])
  }

  /** The number of bytes returned by reads without an error. */
  function Silent(log: seq<Chunk>): nat {
    if log == [] then 0
    else Silent(log[..|log| - 1]) + (if log[|log| - 1].withErr then 0 else |log[|log| - 1].data|)
  }

  /** The log is one of reads of `body`: an error is reported at its end only. */
  ghost predicate ReadsOf(body: bytes, log: seq<Chunk>) {
    log != [] ==>
      && ReadsOf(body, log[..|log| - 1])
      && Delivered(log) <= body
      && (log[|log| - 1].withErr ==> Delivered(log) == body)
  }

  /** handleNext: an empty record means nothing was intercepted, and the delegate
      is handed on; otherwise the record replaces it. */
  function NextBody(body: bytes, log: seq<Chunk>): bytes
    requires Delivered(log) <= body
  {
    if Recorded(log) == [] then body[|Delivered(log)|..] else Recorded(log)
  }

  /** The next handler reads the body from the first byte that no error-free read
      returned, whatever the sizes and number of reads. */
  lemma {:induction false} ReplayFromSilent(body: bytes, log: seq<Chunk>)
    requires ReadsOf(body, log)
    ensures Delivered(log) <= body && Silent(log) <= |body|
    ensures Recorded(log) == [] ==> Silent(log) == |Delivered(log)|
    ensures Recorded(log) != [] ==> Delivered(log) == body && Recorded(log) == body[Silent(log)..]
    ensures NextBody(body, log) == body[Silent(log)..]
  {
    if log != [] {
      var init, last := log[..|log| - 1], log[|log| - 1];
      ReplayFromSilent(body, init);
      assert Delivered(log) == Delivered(init) + last.data;
      if Recorded(init) != [] {
        assert |Delivered(log)| == |Delivered(init)| + |last.data|;
        assert last.data == [];
      } else if last.withErr {
        assert Recorded(log) == last.data;
        assert body[Silent(log)..] == last.data;
      }
    }
  }

  /** Of a single wrapper that was read and is itself handed on: the next handler sees
      the original if and only if no error-free read returned any byte. Module Replay
      has the condition for whole runs, in which a body may be wrapped again. */
  lemma ReplayIsWholeIff(body: bytes, log: seq<Chunk>)
    requires ReadsOf(body, log)
    ensures Delivered(log) <= body
    ensures NextBody(body, log) == body <==> Silent(log) == 0
  {
    ReplayFromSilent(body, log);
    if NextBody(body, log) == body {
      assert |body[Silent(log)..]| == |body| - Silent(log);
    } else {
      assert body[0..] == body;
    }
  }

  const READ_ONE := E.ReadBody(E.RequestBody, 1, true, E.Chunking(false, 0))

  /** A guest that reads the body byte by byte, from a stream that ends on its own. */
  const READS_ALL := E.Environment(E.Script([READ_ONE, READ_ONE], Returned(1)), false, [], [],
                                   E.Script([], Returned(0)))

  /** What next is meant to see again is lost: the run of a request with the body "h"
      and request buffering on. */
  lemma ReplayCanLoseBody(x: E.State)
    requires !x.afterNext && x.requestReader.None?
    requires x.bodies == [E.Stream([104], false), E.Recording(0, [])] && x.body == 1
    ensures var y := E.ResetBody(E.RequestPhase(x, READS_ALL).0);
            && Lo(CtxNext(E.RequestPhase(x, READS_ALL).1)) != 0
            && E.Rest(x.bodies, x.body) == [104] && E.Rest(y.bodies, y.body) == []
  {
    var x1 := ReadsAlone(x);
    var calls := READS_ALL.request.calls;
    assert calls[1..] == [READ_ONE] && [READ_ONE][1..] == [];
    assert E.Calls(x1, [READ_ONE]) == E.Calls(x1, []);
    assert E.Calls(x, calls) == E.Calls(x1, [READ_ONE]);
    assert Lo(1) == 1;
    assert E.Leaf(x.bodies, 1) == E.Leaf(x.bodies, 0) == 0;
    assert E.Leaf(x1.bodies, 0) == 0;
  }

  /** The first read takes the byte, the second only the end. */
  lemma ReadsAlone(x: E.State) returns (x1: E.State)
    requires !x.afterNext && x.requestReader.None?
    requires x.bodies == [E.Stream([104], false), E.Recording(0, [])] && x.body == 1
    ensures E.Step(x, READ_ONE) == E.Reply(x1, E.Chunk([104], false))
    ensures E.Step(x1, READ_ONE) == E.Reply(x1, E.Chunk([], true))
    ensures x1.bodies == [E.Stream([], false), E.Recording(0, [])] && x1.body == 1
  {
    var empty := [E.Stream([], false), E.Recording(0, [])];
    LastByteAlone(x.bodies, empty);
    x1 := E.OpenRequestReader(x).(bodies := empty);
    ReadOneIs(x);
    ReadOneIs(x1);
  }

  lemma ReadOneIs(x: E.State)
    requires !x.afterNext
    ensures var y := E.OpenRequestReader(x);
            E.Step(x, READ_ONE) == E.ReadFrom(y, y.requestReader.value.of, 1, E.Chunking(false, 0))
  {
  }

  lemma LastByteAlone(full: seq<E.Body>, empty: seq<E.Body>)
    requires full == [E.Stream([104], false), E.Recording(0, [])] && empty == [E.Stream([], false), E.Recording(0, [])]
    ensures E.ReadThrough(full, 1, 1, E.Chunking(false, 0)) == (empty, E.Chunk([104], false))
    ensures E.ReadThrough(empty, 1, 1, E.Chunking(false, 0)) == (empty, E.Chunk([], true))
  {
    assert E.Leaf(full, 0) == 0 && E.Leaf(full, 1) == 0 && E.Leaf(empty, 0) == 0 && E.Leaf(empty, 1) == 0;
    assert [104][1..] == [] && [104][..1] == [104];
    assert E.Consume(full, 0, 1, []) == [E.Stream([], false), E.Recording(0, [])];
    assert E.Consume(empty, 0, 0, []) == empty;
    assert full[1].record + [] == full[1].record && empty[1].record + [] == empty[1].record;
    assert E.Consume(full, 1, 1, []) == E.Consume(full, 0, 1, [])[1 := E.Recording(0, [])] == empty;
    assert E.Consume(empty, 1, 0, []) == empty;
  }

  /** One more read. */
  lemma AppendChunk(body: bytes, log: seq<Chunk>, chunk: Chunk)
    ensures Delivered(log + [chunk]) == Delivered(log) + chunk.data
    ensures Recorded(log + [chunk]) == Recorded(log) + if chunk.withErr then chunk.data else []
    ensures ReadsOf(body, log + [chunk]) <==>
              && ReadsOf(body, log) && Delivered(log) + chunk.data <= body
              && (chunk.withErr ==> Delivered(log) + chunk.data == body)
  {
    var all := log + [chunk];
    assert all[..|all| - 1] == log && all[|all| - 1] == chunk;
  }
}
