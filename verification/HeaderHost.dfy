/** The header host functions of handler/middleware.go, over guest memory. */
module HeaderHost {
  import opened Abi
  import opened NulStrings

  const REQUEST := 0
  const RESPONSE := 1
  const KINDS := 4  // request, response, request trailers, response trailers

  /** What the host answers for each header kind: the names, already lower-cased
      as get_header_names returns them, and the values of a name. */
  datatype Headers = Headers(names: nat -> seq<bytes>, values: (nat, bytes) -> seq<bytes>)

  /** mustReadString: nothing is read for a zero length, so any offset will do. */
  function ReadString(mem: bytes, offset: uint32, count: uint32): Option<bytes> {
    if count == 0 then Some([])
    else if offset + count > |mem| then None
    else Some(mem[offset..offset + count])
  }

  method GetHeaderNames(h: Headers, mem: array<byte>, kind: uint32, buf: uint32, bufLimit: uint32)
    returns (r: Result<uint64>)
    modifies mem
    ensures kind >= KINDS ==> r == Trap && mem[..] == old(mem[..])
    ensures kind < KINDS ==> NamesWritten(old(mem[..]), mem[..], buf, bufLimit, h.names(kind), r)
  {
    if kind >= KINDS {
      return Trap;
    }
    r := WriteNulTerminated(mem, buf, bufLimit, h.names(kind));
  }

  method GetHeaderValues(h: Headers, mem: array<byte>, kind: uint32, name: uint32, nameLen: uint32,
                         buf: uint32, bufLimit: uint32)
    returns (r: Result<uint64>)
    modifies mem
    ensures nameLen == 0 || ReadString(old(mem[..]), name, nameLen).None? || kind >= KINDS ==>
              r == Trap && mem[..] == old(mem[..])
    ensures nameLen != 0 && ReadString(old(mem[..]), name, nameLen).Some? && kind < KINDS ==>
              NamesWritten(old(mem[..]), mem[..], buf, bufLimit,
                           h.values(kind, ReadString(old(mem[..]), name, nameLen).value), r)
  {
    if nameLen == 0 {
      return Trap;
    }
    var n := ReadString(mem[..], name, nameLen);
    if n.None? || kind >= KINDS {
      return Trap;
    }
    r := WriteNulTerminated(mem, buf, bufLimit, h.values(kind, n.value));
  }

  /** The effect of writeNULTerminated on lists whose encoding is under 2^32 bytes. */
  ghost predicate NamesWritten(before: bytes, after: bytes, buf: uint32, bufLimit: uint32,
                               input: seq<bytes>, r: Result<uint64>)
  {
    && |after| == |before|
    && r == WriteResult(|before|, buf, bufLimit, input)
    && (!WritesMemory(|before|, buf, bufLimit, input) ==> after == before)
    && (WritesMemory(|before|, buf, bufLimit, input) ==>
          && after[..buf] == before[..buf]
          && after[buf + ByteCount(input)..] == before[buf + ByteCount(input)..])
    && (WritesMemory(|before|, buf, bufLimit, input) && |Encode(input)| < TWO32 ==>
          RegionReplaced(before, after, buf, Encode(input)))
  }

  /** Whether a text of this size goes into memory. */
  predicate TextFits(memSize: nat, offset: uint32, limit: uint32, size: nat) {
    Wrap32(size) <= limit && Wrap32(size) != 0 && offset + size <= memSize
  }

  /** writeIfUnderLimit and writeStringIfUnderLimit, behind get_config, get_method,
      get_uri, get_protocol_version and get_source_addr. A text over the limit is
      not written, so that the guest can retry; one that is under the limit but does
      not lie in memory is silently dropped, and the result does not show it. */
  method WriteIfUnderLimit(mem: array<byte>, offset: uint32, limit: uint32, v: bytes) returns (vLen: uint32)
    modifies mem
    ensures |v| < TWO32 ==> vLen == |v|
    ensures TextFits(mem.Length, offset, limit, |v|) ==> RegionReplaced(old(mem[..]), mem[..], offset, v)
    ensures !TextFits(mem.Length, offset, limit, |v|) ==> mem[..] == old(mem[..])
  {
    vLen := Wrap32(|v|);
    if vLen > limit {
      return;
    } else if vLen == 0 {
      return;
    }
    if offset + |v| <= mem.Length {
      CopyInto(mem, offset, v);
    }
  }

  /** A guest that asks again with the length it was told has all of the text, and
      the limit of the first call does not matter. */
  method GetText(mem: array<byte>, offset: uint32, limit: uint32, v: bytes) returns (text: bytes)
    requires |v| < TWO32 && offset + |v| <= mem.Length
    modifies mem
    ensures text == v
    ensures mem[..offset] == old(mem[..offset]) && mem[offset + |v|..] == old(mem[offset + |v|..])
  {
    var vLen := WriteIfUnderLimit(mem, offset, limit, v);
    if vLen > limit {
      vLen := WriteIfUnderLimit(mem, offset, vLen, v);
    }
    text := mem[offset..offset + vLen];
  }
}
