/** The guest of examples/auth.wat: basic authentication against one fixed
    credential, end to end with the host's get_header_values. */
module AuthGuest {
  import opened Abi
  import opened NulStrings
  import opened HeaderHost

  const PAGE := 65536

  // The module's globals and data segments.
  const NAME_AT := 0
  const EXPECTED_AT := 64
  const EXPECTED_LEN := 35
  const CHALLENGE_NAME_AT := 128
  const CHALLENGE_AT := 196
  const BUF := 1024

  const AUTHORIZATION: bytes := Ascii("Authorization")
  const EXPECTED: bytes := Ascii("Basic QWxhZGRpbjpvcGVuIHNlc2FtZQ==")
  const CHALLENGE_NAME: bytes := Ascii("WWW-Authenticate")
  const CHALLENGE: bytes := Ascii("Basic realm=\"test\"")

  /** The host calls by which the guest answers the request itself. */
  datatype Answer = SetHeader(kind: uint32, name: bytes, value: bytes) | SetStatusCode(code: uint32)

  /** The documented decision. */
  function Decide(values: seq<bytes>): (uint64, seq<Answer>) {
    if values == [EXPECTED] then (1, [])
    else if |values| == 1 then (0, [SetStatusCode(401)])
    else (0, [SetHeader(RESPONSE, CHALLENGE_NAME, CHALLENGE), SetStatusCode(401)])
  }

  lemma EncodeSingle(value: bytes)
    ensures Encode([value]) == value + [0]
  {
    assert [value][1..] == [];
  }

  /** A single value has the expected encoding exactly when it is the expected value. */
  lemma SingleEncoding(values: seq<bytes>)
    requires |values| == 1
    ensures Encode(values) == EXPECTED + [0] <==> values == [EXPECTED]
    ensures |Encode(values)| == |values[0]| + 1
  {
    assert values == [values[0]];
    EncodeSingle(values[0]);
    if Encode(values) == EXPECTED + [0] {
      assert values[0] == Encode(values)[..|values[0]|];
      assert EXPECTED == (EXPECTED + [0])[..|EXPECTED|];
    }
  }

  class Instance {
    const memory: array<byte>

    /** Instantiation. */
    constructor ()
      ensures Valid() && fresh(memory)
    {
      memory := new byte[PAGE](_ => 0);
      new;
      CopyInto(memory, NAME_AT, AUTHORIZATION);
      assert memory[NAME_AT..NAME_AT + 13] == AUTHORIZATION;
      ghost var m1 := memory[..];
      CopyInto(memory, EXPECTED_AT, EXPECTED + [0]);
      assert memory[EXPECTED_AT..EXPECTED_AT + EXPECTED_LEN] == EXPECTED + [0];
      ghost var m2 := memory[..];
      CopyInto(memory, CHALLENGE_NAME_AT, CHALLENGE_NAME);
      ghost var m3 := memory[..];
      CopyInto(memory, CHALLENGE_AT, CHALLENGE);
      RegionOutside(m1, m2, EXPECTED_AT, EXPECTED + [0], 13, PAGE);
      RegionOutside(m2, m3, CHALLENGE_NAME_AT, CHALLENGE_NAME, 99, PAGE);
      RegionOutside(m3, memory[..], CHALLENGE_AT, CHALLENGE, 144, PAGE);
      SubRange(m2, m3, 0, 99, 0, 13);
      SubRange(m2, m3, 0, 99, 64, 99);
      SubRange(m3, memory[..], 0, 144, 0, 13);
      SubRange(m3, memory[..], 0, 144, 64, 99);
      SubRange(m3, memory[..], 0, 144, 128, 144);
    }

    /** The data segments are where instantiation put them. Everything else in
        the page may hold anything an earlier request left there. */
    ghost predicate Valid()
      reads this, memory
    {
      && memory.Length == PAGE
      && memory[NAME_AT..NAME_AT + 13] == AUTHORIZATION
      && memory[EXPECTED_AT..EXPECTED_AT + EXPECTED_LEN] == EXPECTED + [0]
      && memory[CHALLENGE_NAME_AT..CHALLENGE_NAME_AT + 16] == CHALLENGE_NAME
      && memory[CHALLENGE_AT..CHALLENGE_AT + 18] == CHALLENGE
    }

    /** handle_request. It lets the request through if and only if the header carries
        exactly the one expected value, and answers it with 401 otherwise. Two host
        functions act outside memory; their arguments are returned in `answers`. */
    method HandleRequest(h: Headers) returns (r: Result<uint64>, answers: seq<Answer>)
      requires Valid()
      requires |Encode(h.values(REQUEST, AUTHORIZATION))| < TWO32
      modifies memory
      ensures Valid()
      ensures r == Ok(Decide(h.values(REQUEST, AUTHORIZATION)).0)
      ensures answers == Decide(h.values(REQUEST, AUTHORIZATION)).1
      ensures r == Ok(1) <==> h.values(REQUEST, AUTHORIZATION) == [EXPECTED]
      ensures r == Ok(0) <==> SetStatusCode(401) in answers
      ensures |h.values(REQUEST, AUTHORIZATION)| != 1 <==> SetHeader(RESPONSE, CHALLENGE_NAME, CHALLENGE) in answers
    {
      ghost var values := h.values(REQUEST, AUTHORIZATION);
      ghost var before := memory[..];
      EncodeLength(values);
      answers := [];
      assert ReadString(before, NAME_AT, 13) == Some(AUTHORIZATION) by {
        assert before[0..13] == memory[0..13];
      }
      var result := GetHeaderValues(h, memory, REQUEST, NAME_AT, 13, BUF, EXPECTED_LEN);
      DataKept(before, memory[..], values, result);
      if result.Trap? {
        return Trap, answers;
      }
      var count := Hi(result.value);
      if count != 1 {
        var challenge := Challenge();
        answers := [challenge, SetStatusCode(401)];
        return Ok(0), answers;
      }
      assert |values| == 1;
      SingleEncoding(values);
      var len := Lo(result.value);
      if EXPECTED_LEN != len {
        answers := [SetStatusCode(401)];
        return Ok(0), answers;
      }
      assert memory[BUF..BUF + EXPECTED_LEN] == Encode(values);
      var eq := MemEq(BUF, EXPECTED_AT, EXPECTED_LEN);
      if eq.Trap? {
        return Trap, answers;
      }
      var ctxNext: uint64 := 0;
      if eq.value == 0 {
        answers := [SetStatusCode(401)];
      } else {
        ctxNext := 1;
      }
      return Ok(ctxNext), answers;
    }

    /** $set_authenticate, with the bytes the host reads for its arguments. */
    method Challenge() returns (a: Answer)
      requires Valid()
      ensures a == SetHeader(RESPONSE, CHALLENGE_NAME, CHALLENGE)
    {
      a := SetHeader(RESPONSE, memory[CHALLENGE_NAME_AT..CHALLENGE_NAME_AT + 16],
                     memory[CHALLENGE_AT..CHALLENGE_AT + 18]);
    }

    /** $memeq: a do-while over i32 pointers; a load outside memory traps. */
    method MemEq(ptr1: uint32, ptr2: uint32, length: uint32) returns (r: Result<uint32>)
      requires memory.Length < TWO32
      ensures 0 < length && ptr1 + length <= memory.Length && ptr2 + length <= memory.Length ==>
                r == Ok(if memory[ptr1..ptr1 + length] == memory[ptr2..ptr2 + length] then 1 else 0)
    {
      var i1: uint32, i2: uint32, len: uint32 := ptr1, ptr2, length;
      ghost var done := 0;
      ghost var inBounds := 0 < length && ptr1 + length <= memory.Length && ptr2 + length <= memory.Length;
      while true
        invariant inBounds ==> done < length && i1 == ptr1 + done && i2 == ptr2 + done && len == length - done
        invariant inBounds ==> memory[ptr1..ptr1 + done] == memory[ptr2..ptr2 + done]
        decreases if len == 0 then TWO32 else len
      {
        if i1 >= memory.Length || i2 >= memory.Length {
          return Trap;
        }
        if memory[i1] != memory[i2] {
          assert inBounds ==> memory[ptr1..ptr1 + length][done] != memory[ptr2..ptr2 + length][done];
          return Ok(0);
        }
        i1 := Wrap32(i1 + 1);
        i2 := Wrap32(i2 + 1);
        len := Wrap32(len - 1);
        done := done + 1;
        if !(len > 0) {
          break;
        }
      }
      r := Ok(1);
    }
  }

  /** The host writes inside the receive buffer only, so the data segments stay,
      and whenever it reports one value of 35 bytes the buffer holds that value. */
  lemma DataKept(before: bytes, after: bytes, values: seq<bytes>, r: Result<uint64>)
    requires |before| == PAGE
    requires NamesWritten(before, after, BUF, EXPECTED_LEN, values, r)
    requires |Encode(values)| < TWO32
    ensures r.Ok?
    ensures after[..BUF] == before[..BUF]
    ensures forall lo, hi {:trigger after[lo..hi]} :: 0 <= lo <= hi <= BUF ==> after[lo..hi] == before[lo..hi]
    ensures Hi(r.value) == |values|
    ensures values != [] ==> Lo(r.value) == |Encode(values)|
    ensures values != [] && |Encode(values)| == EXPECTED_LEN ==> after[BUF..BUF + EXPECTED_LEN] == Encode(values)
  {
    EncodeLength(values);
    if values != [] {
      Unpack(|values|, |Encode(values)|);
    }
    assert after[..BUF] == before[..BUF];
    forall lo, hi | 0 <= lo <= hi <= BUF
      ensures after[lo..hi] == before[lo..hi]
    {
      SubRange(before, after, 0, BUF, lo, hi);
    }
  }
}
