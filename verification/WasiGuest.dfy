/** The header printing of examples/wasi.wat: a loop over NUL-terminated names
    whose body runs a second loop over that name's NUL-terminated values. */
module WasiGuest {
  import opened Abi
  import opened NulStrings
  import opened HeaderHost

  const PAGE := 65536
  const HEAP := 64      // $heap_start; scratch space for WASI is below
  const LIMIT := 2048   // $buf_limit

  function Line(name: bytes, value: bytes): bytes {
    name + Ascii(": ") + value
  }

  /** One line for each value of a name, in order. */
  function FieldLines(name: bytes, values: seq<bytes>): seq<bytes> {
    seq(|values|, i requires 0 <= i < |values| => Line(name, values[i]))
  }

  lemma OneMoreLine(name: bytes, values: seq<bytes>, i: nat)
    requires i < |values|
    ensures FieldLines(name, values[..i + 1]) == FieldLines(name, values[..i]) + [Line(name, values[i])]
  {
  }

  /** One block of lines for each name, in order. */
  function AllLines(h: Headers, kind: nat, names: seq<bytes>): seq<bytes> {
    if names == [] then []
    else AllLines(h, kind, names[..|names| - 1])
         + FieldLines(names[|names| - 1], h.values(kind, names[|names| - 1]))
  }

  lemma OneMoreBlock(h: Headers, kind: nat, names: seq<bytes>, i: nat)
    requires i < |names|
    ensures AllLines(h, kind, names[..i + 1])
            == AllLines(h, kind, names[..i]) + FieldLines(names[i], h.values(kind, names[i]))
    ensures names[..i + 1] == names[..i] + [names[i]]
  {
    assert names[..i + 1][..i] == names[..i];
  }

  /** The names for which $print_header_fields comes back. */
  predicate FieldPrintable(h: Headers, kind: nat, name: bytes) {
    name != [] && h.values(kind, name) != [] && |Encode(h.values(kind, name))| <= LIMIT
  }

  predicate Printable(h: Headers, kind: nat) {
    |Encode(h.names(kind))| <= LIMIT && forall n :: n in h.names(kind) ==> FieldPrintable(h, kind, n)
  }

  /** Nothing in the header table contains a NUL or needs 2^32 bytes. */
  ghost predicate WellBehaved(h: Headers, kind: nat) {
    && AllNulFree(h.names(kind)) && |Encode(h.names(kind))| < TWO32
    && forall n {:trigger h.values(kind, n)} :: n in h.names(kind) ==>
         AllNulFree(h.values(kind, n)) && |Encode(h.values(kind, n))| < TWO32
  }

  /** Where a scanning loop is: inside string i, k bytes in. */
  lemma EncodedByte(input: seq<bytes>, i: nat, k: nat)
    requires i < |input| && k <= |input[i]|
    ensures var base := |Encode(input[..i])|;
            && base + |input[i]| < |Encode(input)|
            && Encode(input)[base + k] == (if k < |input[i]| then input[i][k] else 0)
            && Encode(input)[base..base + k] == input[i][..k]
            && |Encode(input[..i + 1])| == base + |input[i]| + 1
            && (base + |input[i]| + 1 == |Encode(input)| <==> i + 1 == |input|)
  {
    var base := |Encode(input[..i])|;
    EncodePrefix(input, i);
    assert input == input[..i + 1] + input[i + 1..];
    EncodeAppend(input[..i + 1], input[i + 1..]);
    EncodeLength(input[i + 1..]);
    var rest := [0] + Encode(input[i + 1..]);
    assert Encode(input) == Encode(input[..i]) + input[i] + rest;
    Middle(Encode(input[..i]), input[i], rest, k);
  }

  lemma Middle(a: bytes, b: bytes, c: bytes, k: nat)
    requires k <= |b| && c != []
    ensures (a + b + c)[|a| + k] == if k < |b| then b[k] else c[0]
    ensures (a + b + c)[|a|..|a| + k] == b[..k]
  {
    forall j | 0 <= j < k ensures (a + b + c)[|a|..|a| + k][j] == b[..k][j] {
      assert (a + b + c)[|a| + j] == b[j];
    }
  }

  /** A scanning loop at address buf is inside string i of the encoding at
      `start`, k bytes in. */
  ghost predicate Scanning(m: bytes, start: nat, input: seq<bytes>, i: nat, k: nat, buf: nat) {
    && start + |Encode(input)| <= |m| && m[start..start + |Encode(input)|] == Encode(input)
    && i < |input| && k <= |input[i]| && buf == start + |Encode(input[..i])| + k
  }

  /** What the byte under the scan tells the loop, and where it leads. */
  lemma ScanStep(m: bytes, start: nat, input: seq<bytes>, i: nat, k: nat, buf: nat)
    requires Scanning(m, start, input, i, k, buf) && AllNulFree(input)
    ensures start <= buf - k && buf < start + |Encode(input)|
    ensures m[buf] == 0 <==> k == |input[i]|
    ensures m[buf] == 0 ==> m[buf - k..buf] == input[i] && input[..i + 1] == input[..i] + [input[i]]
    ensures m[buf] == 0 ==> (buf + 1 == start + |Encode(input)| <==> i + 1 == |input|)
    ensures m[buf] == 0 && i + 1 < |input| ==> Scanning(m, start, input, i + 1, 0, buf + 1)
    ensures m[buf] != 0 ==> Scanning(m, start, input, i, k + 1, buf + 1) && buf + 1 < start + |Encode(input)|
  {
    ScannedByte(m, start, input, i, k, buf);
    if m[buf] == 0 {
      ScanEnds(m, start, input, i, buf);
    } else {
      ScanGoesOn(m, start, input, i, k, buf);
    }
  }

  /** At the NUL the whole string lies behind the scan. */
  lemma ScanEnds(m: bytes, start: nat, input: seq<bytes>, i: nat, buf: nat)
    requires i < |input| && Scanning(m, start, input, i, |input[i]|, buf)
    ensures start <= buf - |input[i]| && buf < start + |Encode(input)|
    ensures m[buf - |input[i]|..buf] == input[i] && input[..i + 1] == input[..i] + [input[i]]
    ensures buf + 1 == start + |Encode(input)| <==> i + 1 == |input|
    ensures i + 1 < |input| ==> Scanning(m, start, input, i + 1, 0, buf + 1)
  {
    EncodedByte(input, i, |input[i]|);
    SliceOfSlice(m, start, start + |Encode(input)|, buf - |input[i]|, buf);
  }

  lemma ScanGoesOn(m: bytes, start: nat, input: seq<bytes>, i: nat, k: nat, buf: nat)
    requires Scanning(m, start, input, i, k, buf) && k < |input[i]|
    ensures start <= buf - k && buf + 1 < start + |Encode(input)| && Scanning(m, start, input, i, k + 1, buf + 1)
  {
    EncodedByte(input, i, k);
    EncodedByte(input, i, |input[i]|);
  }

  lemma ScannedByte(m: bytes, start: nat, input: seq<bytes>, i: nat, k: nat, buf: nat)
    requires Scanning(m, start, input, i, k, buf) && AllNulFree(input)
    ensures buf < start + |Encode(input)|
    ensures m[buf] == 0 <==> k == |input[i]|
  {
    EncodedByte(input, i, k);
    assert m[buf] == m[start..start + |Encode(input)|][buf - start];
    assert input[i] in input;
    assert NulFree(input[i]);
  }

  /** Writes above the encoding do not disturb the scan. */
  lemma ScanFrame(m: bytes, m': bytes, start: nat, input: seq<bytes>, i: nat, k: nat, buf: nat, hi: nat)
    requires Scanning(m, start, input, i, k, buf)
    requires HEAP <= start && start + |Encode(input)| <= hi <= |m| == |m'| && m'[HEAP..hi] == m[HEAP..hi]
    ensures Scanning(m', start, input, i, k, buf)
  {
    SubRange(m, m', HEAP, hi, start, start + |Encode(input)|);
  }

  class Instance {
    const memory: array<byte>
    var console: seq<bytes>

    constructor ()
      ensures memory.Length == PAGE && console == []
    {
      memory := new byte[PAGE];
      console := [];
    }

    /** Everything between the WASI scratch space and `hi` is as it was. */
    twostate predicate KeptBelow(hi: nat)
      reads this, memory
    {
      HEAP <= hi <= memory.Length ==> memory[HEAP..hi] == old(memory[HEAP..hi])
    }

    /** $print_headers */
    method PrintHeaders(h: Headers, kind: uint32) returns (r: Result<()>)
      requires memory.Length == PAGE && kind < KINDS && WellBehaved(h, kind)
      modifies this, memory
      ensures r.Ok? <==> Printable(h, kind)
      ensures r.Ok? ==> console == old(console) + AllLines(h, kind, h.names(kind))
    {
      ghost var names := h.names(kind);
      EncodeLength(names);
      var result := GetHeaderNames(h, memory, kind, HEAP, LIMIT);
      if names != [] {
        Unpack(|names|, |Encode(names)|);
      }
      if result.Trap? {
        return Trap;
      }
      if result.value == 0 {
        assert names == [];
        return Ok(());
      }
      if Lo(result.value) > LIMIT {
        return Trap;
      }
      r := SplitNames(h, kind, HEAP, Lo(result.value));
      assert names[..|names|] == names;
    }

    /** The $names loop. */
    method SplitNames(h: Headers, kind: uint32, start: uint32, length: uint32) returns (r: Result<()>)
      requires memory.Length == PAGE && kind < KINDS && WellBehaved(h, kind)
      requires h.names(kind) != [] && start == HEAP && length == |Encode(h.names(kind))| <= LIMIT
      requires memory[start..start + length] == Encode(h.names(kind))
      modifies this, memory
      ensures r.Ok? <==> Printable(h, kind)
      ensures r.Ok? ==> console == old(console) + AllLines(h, kind, h.names(kind))
    {
      ghost var names, i := h.names(kind), 0;
      var bufConsole: uint32 := Wrap32(start + length);
      var buf: uint32, namesLen: uint32, len: uint32 := start, length, 0;
      while true
        invariant namesLen == start + length - buf
        invariant Scanning(memory[..], start, names, i, len, buf)
        invariant forall n :: n in names[..i] ==> FieldPrintable(h, kind, n)
        invariant console == old(console) + AllLines(h, kind, names[..i])
        decreases namesLen
      {
        ScanStep(memory[..], start, names, i, len, buf);
        if memory[buf] == 0 {
          r := PrintName(h, kind, buf, len, bufConsole, start, i);
          if r.Trap? {
            return;
          }
          OneMoreBlock(h, kind, names, i);
          buf := Wrap32(buf + 1);
          len := 0;
          i := i + 1;
        } else {
          len := Wrap32(len + 1);
          buf := Wrap32(buf + 1);
        }
        namesLen := Wrap32(namesLen - 1);
        if !(namesLen > 0) {
          break;
        }
      }
      assert names[..i] == names;
      r := Ok(());
    }

    /** The end of a name in the $names loop. */
    method PrintName(h: Headers, kind: uint32, buf: uint32, len: uint32, bufConsole: uint32,
                     ghost start: nat, ghost i: nat)
      returns (r: Result<()>)
      requires memory.Length == PAGE && kind < KINDS && WellBehaved(h, kind) && len <= buf < PAGE
      requires start == HEAP && |Encode(h.names(kind))| <= LIMIT && bufConsole == start + |Encode(h.names(kind))|
      requires Scanning(memory[..], start, h.names(kind), i, len, buf) && memory[buf] == 0
      modifies this, memory
      ensures i < |h.names(kind)| && h.names(kind)[i] in h.names(kind)
      ensures r.Ok? <==> FieldPrintable(h, kind, h.names(kind)[i])
      ensures r.Ok? ==> console == old(console) + FieldLines(h.names(kind)[i], h.values(kind, h.names(kind)[i]))
      ensures i + 1 < |h.names(kind)| ==> Scanning(memory[..], start, h.names(kind), i + 1, 0, buf + 1)
    {
      ghost var names, before := h.names(kind), memory[..];
      ScanStep(before, start, names, i, len, buf);
      var name: uint32 := Wrap32(buf - len);
      r := PrintHeaderFields(h, kind, name, len, bufConsole, names[i]);
      if i + 1 < |names| {
        ScanFrame(before, memory[..], start, names, i + 1, 0, buf + 1, bufConsole);
      }
    }

    /** $print_header_fields, whose buf_limit argument is always $buf_limit. */
    method PrintHeaderFields(h: Headers, kind: uint32, name: uint32, nameLen: uint32, buf: uint32, ghost nameIs: bytes)
      returns (r: Result<()>)
      requires memory.Length == PAGE && kind < KINDS && WellBehaved(h, kind) && nameIs in h.names(kind)
      requires HEAP <= name && name + nameLen <= buf <= HEAP + LIMIT && memory[name..name + nameLen] == nameIs
      modifies this, memory
      ensures KeptBelow(buf)
      ensures r.Ok? <==> FieldPrintable(h, kind, nameIs)
      ensures r.Ok? ==> console == old(console) + FieldLines(nameIs, h.values(kind, nameIs))
    {
      ghost var values := h.values(kind, nameIs);
      EncodeLength(values);
      ghost var before := memory[..];
      assert nameLen != 0 ==> ReadString(before, name, nameLen) == Some(nameIs);
      var result := GetHeaderValues(h, memory, kind, name, nameLen, buf, LIMIT);
      if values != [] {
        Unpack(|values|, |Encode(values)|);
      }
      if result.Trap? {
        return Trap;
      }
      var valuesLen := Lo(result.value);
      if valuesLen > LIMIT {
        return Trap;
      }
      SubRange(before, memory[..], 0, buf, name, name + nameLen);
      r := SplitValues(name, nameLen, buf, valuesLen, nameIs, values);
    }

    /** The $values loop. Called for a name without values it has nothing to stop
        it: the length wraps below zero and the scan runs off the memory. */
    method SplitValues(name: uint32, nameLen: uint32, start: uint32, length: uint32,
                       ghost nameIs: bytes, ghost values: seq<bytes>)
      returns (r: Result<()>)
      requires memory.Length == PAGE && AllNulFree(values)
      requires HEAP <= name && name + nameLen <= start <= HEAP + LIMIT && memory[name..name + nameLen] == nameIs
      requires length == |Encode(values)| <= LIMIT
      requires memory[start..start + length] == Encode(values)
      modifies this, memory
      ensures KeptBelow(start)
      ensures r.Ok? <==> values != []
      ensures r.Ok? ==> console == old(console) + FieldLines(nameIs, values)
    {
      ghost var i, m0 := 0, memory[..];
      EncodeLength(values);
      var bufConsole: uint32 := Wrap32(start + length);
      var buf: uint32, valuesLen: uint32, len: uint32 := start, length, 0;
      while true
        invariant start <= buf <= PAGE && len <= buf - start
        invariant memory[HEAP..start] == m0[HEAP..start] && memory[name..name + nameLen] == nameIs
        invariant values == [] ==> valuesLen == Wrap32(start - buf)
        invariant values != [] ==> valuesLen == start + length - buf && Scanning(memory[..], start, values, i, len, buf)
        invariant values != [] ==> console == old(console) + FieldLines(nameIs, values[..i])
        decreases PAGE - buf
      {
        if buf >= memory.Length {
          return Trap;
        }
        if values != [] {
          ScanStep(memory[..], start, values, i, len, buf);
        }
        if memory[buf] == 0 {
          var printed := PrintValue(name, nameLen, buf, len, bufConsole, start, nameIs, values, i);
          if printed.Trap? {
            return Trap;
          }
          SubRange(m0, memory[..], HEAP, start, name, name + nameLen);
          if values != [] {
            OneMoreLine(nameIs, values, i);
          }
          buf := Wrap32(buf + 1);
          len := 0;
          i := i + 1;
        } else {
          len := Wrap32(len + 1);
          buf := Wrap32(buf + 1);
        }
        valuesLen := Wrap32(valuesLen - 1);
        if !(valuesLen > 0) {
          break;
        }
      }
      assert values[..i] == values;
      r := Ok(());
    }

    /** The end of a value in the $values loop. */
    method PrintValue(name: uint32, nameLen: uint32, buf: uint32, len: uint32, bufConsole: uint32,
                      ghost start: nat, ghost nameIs: bytes, ghost values: seq<bytes>, ghost i: nat)
      returns (r: Result<()>)
      requires memory.Length == PAGE && AllNulFree(values) && len <= buf < PAGE
      requires HEAP <= name && name + nameLen <= start <= HEAP + LIMIT && memory[name..name + nameLen] == nameIs
      requires |Encode(values)| <= LIMIT && bufConsole == start + |Encode(values)|
      requires values != [] ==> Scanning(memory[..], start, values, i, len, buf) && memory[buf] == 0
      modifies this, memory
      ensures memory[HEAP..start] == old(memory[HEAP..start])
      ensures values != [] ==> r.Ok? && i < |values|
      ensures values != [] ==> console == old(console) + [Line(nameIs, values[i])]
      ensures values != [] && i + 1 < |values| ==> Scanning(memory[..], start, values, i + 1, 0, buf + 1)
    {
      ghost var before := memory[..];
      if values != [] {
        ScanStep(before, start, values, i, len, buf);
      }
      var value: uint32 := Wrap32(buf - len);
      r := PrintHeaderField(name, nameLen, value, len, bufConsole);
      SubRange(before, memory[..], HEAP, bufConsole, HEAP, start);
      if values != [] && i + 1 < |values| {
        ScanFrame(before, memory[..], start, values, i + 1, 0, buf + 1, bufConsole);
      }
    }

    /** memory.copy, which traps before writing anything when either range is outside. */
    method MemoryCopy(to: uint32, from: uint32, count: uint32) returns (r: Result<()>)
      requires memory.Length == PAGE
      modifies memory
      ensures r.Ok? <==> to + count <= PAGE && from + count <= PAGE
      ensures r.Trap? ==> memory[..] == old(memory[..])
      ensures r.Ok? ==> RegionReplaced(old(memory[..]), memory[..], to, old(memory[from..from + count]))
    {
      if to + count > memory.Length || from + count > memory.Length {
        return Trap;
      }
      CopyInto(memory, to, memory[from..from + count]);
      r := Ok(());
    }

    method Store8(at: uint32, v: byte) returns (r: Result<()>)
      requires memory.Length == PAGE
      modifies memory
      ensures r.Ok? <==> at < PAGE
      ensures r.Trap? ==> memory[..] == old(memory[..])
      ensures r.Ok? ==> RegionReplaced(old(memory[..]), memory[..], at, [v])
    {
      if at >= memory.Length {
        return Trap;
      }
      CopyInto(memory, at, [v]);
      r := Ok(());
    }

    /** $println: describes the text in the I/O vector at address 16 and hands it
        to fd_write, which leaves its byte count at address 4. */
    method Println(buf: uint32, bufLen: uint32)
      requires memory.Length == PAGE && buf + bufLen <= PAGE
      modifies this, memory
      ensures memory[HEAP..PAGE] == old(memory[HEAP..PAGE])
      ensures HEAP <= buf ==> console == old(console) + [old(memory[buf..buf + bufLen])]
    {
      if bufLen != 0 {
        memory[16], memory[17], memory[18], memory[19] :=
          buf % 256, buf / 0x100 % 256, buf / 0x1_0000 % 256, buf / 0x100_0000;
        memory[20], memory[21], memory[22], memory[23] :=
          bufLen % 256, bufLen / 0x100 % 256, bufLen / 0x1_0000 % 256, bufLen / 0x100_0000;
      }
      console := console + [memory[buf..buf + bufLen]];
    }

    /** The name, ':' and ' ' of $print_header_field; returns where the value goes. */
    method StorePrefix(name: uint32, nameLen: uint32, at: uint32) returns (r: Result<uint32>)
      requires memory.Length == PAGE
      modifies memory
      ensures at <= PAGE ==> memory[..at] == old(memory[..at])
      ensures r.Ok? <==> name + nameLen <= PAGE && at + nameLen + 2 <= PAGE
      ensures r.Ok? ==> r.value == at + nameLen + 2
      ensures r.Ok? ==> RegionReplaced(old(memory[..]), memory[..], at, old(memory[name..name + nameLen]) + Ascii(": "))
    {
      ghost var m0 := memory[..];
      var copied := MemoryCopy(at, name, nameLen);
      if copied.Trap? { return Trap; }
      ghost var m1 := memory[..];
      var buf: uint32 := Wrap32(at + nameLen);
      var colon := Store8(buf, ':' as int);
      if colon.Trap? { return Trap; }
      ghost var m2 := memory[..];
      buf := Wrap32(buf + 1);
      var space := Store8(buf, ' ' as int);
      if space.Trap? { return Trap; }
      TwoWrites(m0, m1, m2, memory[..], at, m0[name..name + nameLen], [':' as int], [' ' as int]);
      assert m0[name..name + nameLen] + Ascii(": ") == m0[name..name + nameLen] + [':' as int] + [' ' as int];
      r := Ok(Wrap32(buf + 1));
    }

    /** The copying half of $print_header_field; returns the end of the text. */
    method StoreField(name: uint32, nameLen: uint32, value: uint32, valueLen: uint32, at: uint32)
      returns (r: Result<uint32>)
      requires memory.Length == PAGE
      modifies memory
      ensures at <= PAGE ==> memory[..at] == old(memory[..at])
      ensures r.Ok? ==>
                r.value == at + nameLen + 2 + valueLen <= PAGE && name + nameLen <= PAGE && value + valueLen <= PAGE
      ensures name + nameLen <= at && value + valueLen <= at && at + nameLen + 2 + valueLen <= PAGE ==>
                && r.Ok?
                && memory[at..r.value] == Line(old(memory[name..name + nameLen]), old(memory[value..value + valueLen]))
    {
      ghost var m0 := memory[..];
      var prefix := StorePrefix(name, nameLen, at);
      if prefix.Trap? { return Trap; }
      ghost var m1 := memory[..];
      var copied := MemoryCopy(prefix.value, value, valueLen);
      if copied.Trap? { return Trap; }
      FieldStored(m0, m1, memory[..], name, nameLen, value, valueLen, at);
      r := Ok(Wrap32(prefix.value + valueLen));
    }

    /** $print_header_field */
    method PrintHeaderField(name: uint32, nameLen: uint32, value: uint32, valueLen: uint32, at: uint32)
      returns (r: Result<()>)
      requires memory.Length == PAGE
      modifies this, memory
      ensures KeptBelow(at)
      ensures HEAP <= name && name + nameLen <= at && value + valueLen <= at && at + nameLen + 2 + valueLen <= PAGE ==>
                && r.Ok?
                && console == old(console) + [Line(old(memory[name..name + nameLen]),
                                                   old(memory[value..value + valueLen]))]
    {
      ghost var m0 := memory[..];
      var end := StoreField(name, nameLen, value, valueLen, at);
      if HEAP <= at <= PAGE {
        SubRange(m0, memory[..], 0, at, HEAP, at);
      }
      if end.Trap? { return Trap; }
      ghost var m2 := memory[..];
      Println(at, Wrap32(end.value - at));
      if HEAP <= at {
        SubRange(m2, memory[..], HEAP, PAGE, HEAP, at);
      }
      r := Ok(());
    }
  }

  lemma FieldWritten(m0: bytes, m1: bytes, m2: bytes, at: nat, name: bytes, value: bytes)
    requires RegionReplaced(m0, m1, at, name + Ascii(": "))
    requires RegionReplaced(m1, m2, at + |name| + 2, value)
    ensures m1[..at] == m0[..at] && m2[..at] == m0[..at]
    ensures m2[at..at + |name| + 2 + |value|] == Line(name, value)
  {
    TwoWrites(m0, m0, m1, m2, at, [], name + Ascii(": "), value);
    assert [] + (name + Ascii(": ")) + value == Line(name, value);
  }

  /** The same with the value taken from what was there before the name went in. */
  lemma FieldStored(m0: bytes, m1: bytes, m2: bytes, name: nat, nameLen: nat, value: nat, valueLen: nat, at: nat)
    requires name + nameLen <= |m0| && value + valueLen <= |m1|
    requires RegionReplaced(m0, m1, at, m0[name..name + nameLen] + Ascii(": "))
    requires RegionReplaced(m1, m2, at + nameLen + 2, m1[value..value + valueLen])
    ensures m2[..at] == m0[..at]
    ensures value + valueLen <= at ==>
              m2[at..at + nameLen + 2 + valueLen] == Line(m0[name..name + nameLen], m0[value..value + valueLen])
  {
    FieldWritten(m0, m1, m2, at, m0[name..name + nameLen], m1[value..value + valueLen]);
    if value + valueLen <= at {
      SubRange(m0, m1, 0, at, value, value + valueLen);
    }
  }
}
