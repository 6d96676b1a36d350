/** The guest of internal/test/testdata/e2e/header_names.wat: asks for the header
    names, retries with a larger limit, and traps unless the number of NULs it
    counts in memory is the count it was told. */
module NamesGuest {
  import opened Abi
  import opened NulStrings
  import opened HeaderHost

  const PAGE := 65536
  const FIRST_LIMIT := 2048

  /** When the guest survives: the names encode unambiguously and fit its memory. */
  predicate Survives(names: seq<bytes>) {
    AllNulFree(names) && |Encode(names)| <= PAGE
  }

  function Expected(names: seq<bytes>): Result<uint64> {
    if names == [] then Ok(0)
    else if Survives(names) then Ok(1)
    else Trap
  }

  class Instance {
    const memory: array<byte>

    constructor ()
      ensures memory.Length == PAGE && fresh(memory)
    {
      memory := new byte[PAGE];
    }

    method HandleRequest(h: Headers) returns (r: Result<uint64>)
      requires memory.Length == PAGE
      requires |Encode(h.names(REQUEST))| < TWO32
      modifies memory
      ensures r == Expected(h.names(REQUEST))
      ensures |Encode(h.names(REQUEST))| > PAGE ==> memory[..] == old(memory[..])
    {
      ghost var names := h.names(REQUEST);
      var result := GetHeaderNames(h, memory, REQUEST, 0, FIRST_LIMIT);
      HostAnswers(old(memory[..]), memory[..], names, FIRST_LIMIT, result);
      if result.Trap? {
        return Trap;
      }
      if result.value == 0 {
        return Ok(0);
      }
      var expectedCount := Hi(result.value);
      var len := Lo(result.value);
      if len > FIRST_LIMIT {
        var again := GetHeaderNames(h, memory, REQUEST, 0, len);
        HostAnswers(old(memory[..]), memory[..], names, len, again);
        if again.Trap? {
          return Trap;
        }
      }
      assert memory[0..len] == Encode(names);
      var count := CountNuls(0, len);
      NulCountMatches(names);
      if count.Trap? || count.value != expectedCount {
        return Trap;
      }
      r := Ok(1);
    }

    /** The $names loop, with i32 arithmetic and trapping loads. */
    method CountNuls(start: uint32, length: uint32) returns (r: Result<uint32>)
      requires memory.Length == PAGE
      ensures 0 < length && start + length <= PAGE ==>
                r.Ok? && r.value == CountNul(memory[start..start + length])
    {
      var buf: uint32, len: uint32, count: uint32 := start, length, 0;
      ghost var m := memory[..];
      ghost var inBounds := 0 < length && start + length <= PAGE;
      ghost var done := 0;
      while true
        invariant inBounds ==> done < length && buf == start + done && len == length - done
        invariant inBounds ==> count == CountNul(m[start..start + done]) <= done
        decreases if len == 0 then TWO32 else len
      {
        if buf >= memory.Length {
          return Trap;
        }
        if inBounds {
          CountNulStep(m, start, done);
        }
        if memory[buf] == 0 {
          count := Wrap32(count + 1);
        }
        buf := Wrap32(buf + 1);
        len := Wrap32(len - 1);
        done := done + 1;
        if !(len > 0) {
          break;
        }
      }
      r := Ok(count);
    }
  }

  /** One call of get_header_names at address zero: over the limit nothing is
      written, and otherwise the whole encoding is, or the host panics. */
  lemma HostAnswers(before: bytes, after: bytes, names: seq<bytes>, limit: uint32, r: Result<uint64>)
    requires |before| == PAGE && |Encode(names)| < TWO32
    requires NamesWritten(before, after, 0, limit, names, r)
    ensures names == [] ==> r == Ok(0)
    ensures r.Ok? && names != [] ==> Hi(r.value) == |names| > 0 && Lo(r.value) == |Encode(names)| > 0 && r.value != 0
    ensures names != [] ==> (r.Trap? <==> PAGE < |Encode(names)| <= limit)
    ensures names != [] && |Encode(names)| <= limit && r.Ok? ==> after[0..|Encode(names)|] == Encode(names)
    ensures |Encode(names)| > limit || r.Trap? ==> after == before
  {
    EncodeLength(names);
    if names != [] {
      Unpack(|names|, |Encode(names)|);
    }
  }

  lemma CountNulStep(m: bytes, lo: nat, k: nat)
    requires lo + k < |m|
    ensures CountNul(m[lo..lo + k + 1]) == CountNul(m[lo..lo + k]) + (if m[lo + k] == 0 then 1 else 0)
  {
    CountNulAppend(m[lo..lo + k], [m[lo + k]]);
    assert m[lo..lo + k] + [m[lo + k]] == m[lo..lo + k + 1];
  }

  lemma NulCountMatches(names: seq<bytes>)
    requires |Encode(names)| <= PAGE
    ensures CountNul(Encode(names)) == |names| <==> AllNulFree(names)
  {
    CountNulEncode(names);
  }
}
