/** Reading a body: Go's io.Reader as a contract, the fill loop of readBody in
    handler/middleware.go, and the loops that call it until EOF. */
module BodyStream {
  import opened Abi

  datatype ReadErr = Nil | EOF | Failure

  /** An io.Reader that delivers data[pos..end] and then `fate`. When `exact`, it is
      a bytes.Reader: a window into a slice, sharing its array, that fills every
      buffer it can and reports EOF only by itself. Otherwise it is any reader: it
      chooses its own chunks and may return up to `patience` more empty reads. */
  class Reader {
    const data: array<byte>
    const end: nat
    const fate: ReadErr
    const exact: bool
    var pos: nat
    var patience: nat

    constructor (data: array<byte>, end: nat, fate: ReadErr, exact: bool, patience: nat)
      requires end <= data.Length && fate != Nil && (exact ==> fate == EOF)
      ensures Valid() && this.data == data && this.end == end && this.fate == fate && this.exact == exact
      ensures pos == 0 && this.patience == patience
    {
      this.data, this.end, this.fate, this.exact := data, end, fate, exact;
      this.pos, this.patience := 0, patience;
    }

    ghost predicate Valid()
      reads this
    {
      pos <= end <= data.Length && fate != Nil && (exact ==> fate == EOF)
    }

    /** The bytes still to be read. */
    ghost function Rest(): bytes
      requires Valid()
      reads this, data
    {
      data[pos..end]
    }

    /** io.Reader.Read on the slice mem[off..off+len]. Data may come together with
        the final error, reads may be empty, and bytes beyond n may be used as
        scratch space, as the interface allows. */
    method Read(mem: array<byte>, off: nat, len: nat) returns (n: nat, err: ReadErr)
      requires Valid() && off + len <= mem.Length && mem != data
      modifies this, mem
      ensures Valid() && n <= len && pos == old(pos) + n
      ensures forall i :: off <= i < off + n ==> mem[i] == data[old(pos) + i - off]
      ensures forall i :: 0 <= i < mem.Length && !(off <= i < off + len) ==> mem[i] == old(mem[i])
      ensures err != Nil ==> pos == end && err == fate
      ensures patience <= old(patience)
      ensures err == Nil && n == 0 && len > 0 ==> patience < old(patience)
      ensures exact ==> n == Min(len, end - old(pos)) && (err == EOF <==> old(pos) == end)
    {
      var left := end - pos;
      if exact {
        if left == 0 {
          return 0, EOF;
        }
        n, err := Min(len, left), Nil;
        Deliver(mem, off, n, n, []);
        return;
      }
      var most := Min(len, left);
      var choice, scratch, atOnce := Arbitrary(most, len);
      n := if choice == 0 && patience == 0 then Min(1, most) else choice;
      Deliver(mem, off, len, n, scratch);
      err := if pos == end && (atOnce || (n == 0 && patience == 0)) then fate else Nil;
      if err == Nil && n == 0 && len > 0 {
        patience := patience - 1;
      }
    }

    /** Moves n bytes to mem[off..] and whatever is in `scratch` behind them. */
    method Deliver(mem: array<byte>, off: nat, len: nat, n: nat, scratch: bytes)
      requires Valid() && off + len <= mem.Length && mem != data
      requires n <= len && pos + n <= end && (n == len || |scratch| == len)
      modifies this`pos, mem
      ensures pos == old(pos) + n
      ensures forall i :: off <= i < off + n ==> mem[i] == data[old(pos) + i - off]
      ensures forall i :: 0 <= i < mem.Length && !(off <= i < off + len) ==> mem[i] == old(mem[i])
    {
      forall i | 0 <= i < len {
        mem[off + i] := if i < n then data[pos + i] else scratch[i];
      }
      pos := pos + n;
    }

    /** The choices a reader is free to make: how much to deliver, what to leave in
        its scratch space, and whether to report the end together with the data. */
    method Arbitrary(most: nat, len: nat) returns (choice: nat, scratch: bytes, atOnce: bool)
      ensures choice <= most && |scratch| == len
    {
      choice, scratch, atOnce := most, seq(len, _ => 0), true;
    }
  }

  /** The result a call of read_body may have, when `left` bytes of the body remain. */
  ghost predicate Filled(left: nat, fate: ReadErr, bufLimit: nat, out: Result<uint64>) {
    match out
    case Trap => fate == Failure && left <= bufLimit
    case Ok(v) =>
      && Lo(v) == Min(bufLimit, left) && Hi(v) <= 1
      && (Hi(v) == 0 ==> left >= bufLimit)
      && (Hi(v) == 1 ==> left <= bufLimit && fate == EOF)
  }

  predicate InMemory(size: nat, buf: nat, bufLimit: nat) {
    bufLimit > 0 && buf + bufLimit <= size
  }

  /** The loop of readBody: reads until the buffer is full or the reader reports
      an error. */
  method Fill(mem: array<byte>, buf: nat, bufLimit: uint32, r: Reader) returns (n: uint32, err: ReadErr)
    requires r.Valid() && mem != r.data && buf + bufLimit <= mem.Length
    modifies r, mem
    ensures r.Valid() && n == Min(bufLimit, r.end - old(r.pos)) && r.pos == old(r.pos) + n
    ensures forall i :: buf <= i < buf + n ==> mem[i] == r.data[old(r.pos) + i - buf]
    ensures forall i :: 0 <= i < mem.Length && !(buf <= i < buf + bufLimit) ==> mem[i] == old(mem[i])
    ensures err == Nil ==> n == bufLimit
    ensures err != Nil ==> r.pos == r.end && err == r.fate
    ensures r.exact && bufLimit > 0 ==> (err != Nil <==> n < bufLimit)
  {
    n, err := 0, Nil;
    while n < bufLimit && err == Nil
      invariant r.Valid() && n <= bufLimit && r.pos == old(r.pos) + n
      invariant forall i :: buf <= i < buf + n ==> mem[i] == r.data[old(r.pos) + i - buf]
      invariant forall i :: 0 <= i < mem.Length && !(buf <= i < buf + bufLimit) ==> mem[i] == old(mem[i])
      invariant err != Nil ==> r.pos == r.end && err == r.fate
      invariant r.exact && err != Nil ==> n < bufLimit
      decreases bufLimit - n, err == Nil, r.patience
    {
      var nn;
      nn, err := r.Read(mem, buf + n, bufLimit - n);
      n := Wrap32(n + nn);
    }
  }

  /** readBody: fills the buffer, and packs the EOF flag with the length. */
  method ReadBody(mem: array<byte>, buf: uint32, bufLimit: uint32, r: Reader) returns (out: Result<uint64>)
    requires r.Valid() && mem != r.data
    modifies r, mem
    ensures r.Valid()
    ensures !InMemory(mem.Length, buf, bufLimit) ==>
              out == Trap && r.pos == old(r.pos) && mem[..] == old(mem[..])
    ensures InMemory(mem.Length, buf, bufLimit) ==>
              && Filled(r.end - old(r.pos), r.fate, bufLimit, out)
              && r.pos == old(r.pos) + Min(bufLimit, r.end - old(r.pos))
              && mem[buf..buf + (r.pos - old(r.pos))] == r.data[old(r.pos)..r.pos]
              && mem[..buf] == old(mem[..buf]) && mem[buf + bufLimit..] == old(mem[buf + bufLimit..])
    ensures r.exact && InMemory(mem.Length, buf, bufLimit) ==>
              out.Ok? && (Hi(out.value) == 1 <==> r.end - old(r.pos) < bufLimit)
  {
    if bufLimit == 0 || buf + bufLimit > mem.Length {
      return Trap;
    }
    var n, err := Fill(mem, buf, bufLimit, r);
    assert mem[buf..buf + n] == r.data[old(r.pos)..r.pos];
    match err
    case Nil => out := Ok(n);
    case EOF =>
      Unpack(1, n);
      out := Ok(Pack(1, n));
    case Failure => out := Trap;
  }

  /** A guest that calls read_body with any sequence of limits until the EOF flag
      is set and joins the chunks has the whole body; a body that ends in an error
      traps it. However the reader chunks the data, the loop ends. */
  method ReadToEof(mem: array<byte>, buf: uint32, limits: nat -> uint32, r: Reader)
    returns (body: bytes, out: Result<()>, calls: nat)
    requires r.Valid() && mem != r.data
    requires forall i: nat :: InMemory(mem.Length, buf, limits(i))
    modifies r, mem
    ensures r.Valid() && r.Rest() == []
    ensures out.Ok? <==> r.fate == EOF
    ensures out.Ok? ==> body == old(r.Rest())
    ensures 1 <= calls <= |old(r.Rest())| + 1
  {
    body, calls := [], 0;
    while true
      invariant r.Valid() && old(r.pos) <= r.pos
      invariant body == r.data[old(r.pos)..r.pos]
      invariant calls <= |body|
      decreases r.end - r.pos
    {
      var limit := limits(calls);
      assert InMemory(mem.Length, buf, limit);
      ghost var at := r.pos;
      var result := ReadBody(mem, buf, limit, r);
      calls := calls + 1;
      if result.Trap? {
        return body, Trap, calls;
      }
      body := body + mem[buf..buf + Lo(result.value)];
      assert body == r.data[old(r.pos)..at] + r.data[at..r.pos];
      if Hi(result.value) != 0 {
        break;
      }
    }
    out := Ok(());
  }
}

/** The guest of internal/test/testdata/bench/read_body_stream.wat. */
module StreamGuest {
  import opened Abi
  import opened BodyStream

  const PAGE := 65536
  const LIMIT := 2048

  /** How many calls a body takes: one more than the full buffers, unless the last
      full buffer already came with EOF. */
  ghost predicate CallCount(size: nat, calls: nat) {
    || calls == size / LIMIT + 1
    || (size > 0 && size % LIMIT == 0 && calls == size / LIMIT)
  }

  class Instance {
    const memory: array<byte>

    constructor ()
      ensures memory.Length == PAGE && fresh(memory)
    {
      memory := new byte[PAGE];
    }

    /** handle_request, where r is the reader behind the request body. */
    method HandleRequest(r: Reader) returns (ctxNext: Result<uint64>, calls: nat)
      requires memory.Length == PAGE && r.Valid() && memory != r.data
      modifies r, memory
      ensures r.Valid() && r.Rest() == []
      ensures ctxNext == if r.fate == EOF then Ok(0) else Trap
      ensures CallCount(|old(r.Rest())|, calls)
    {
      calls := 0;
      while true
        invariant r.Valid() && r.pos == old(r.pos) + LIMIT * calls
        decreases r.end - r.pos
      {
        var result := ReadBody(memory, 0, LIMIT, r);
        calls := calls + 1;
        if result.Trap? {
          return Trap, calls;
        }
        if Hi(result.value) % 2 == 1 {  // result & eof == eof
          break;
        }
      }
      ctxNext := Ok(0);
    }
  }
}
