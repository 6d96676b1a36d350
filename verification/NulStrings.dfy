/** Sequences of NUL-terminated strings, as handler/cstring.go lays them out in
    guest memory and as guests take them apart again. */
module NulStrings {
  import opened Abi

  /** The layout: every string followed by one NUL. */
  function Encode(input: seq<bytes>): bytes {
    if input == [] then [] else input[0] + [0] + Encode(input[1..])
  }

  predicate NulFree(s: bytes) {
    0 !in s
  }

  predicate AllNulFree(input: seq<bytes>) {
    forall s :: s in input ==> NulFree(s)
  }

  /** The strings a reader sees that collects bytes in `current` and emits them
      at each NUL. Bytes after the last NUL are never emitted. */
  function Split(s: bytes, current: bytes): seq<bytes> {
    if s == [] then []
    else if s[0] == 0 then [current] + Split(s[1..], [])
    else Split(s[1..], current + [s[0]])
  }

  function CountNul(s: bytes): nat {
    if s == [] then 0 else (if s[0] == 0 then 1 else 0) + CountNul(s[1..])
  }

  /** All the NULs inside the strings themselves. */
  function InnerNuls(input: seq<bytes>): nat {
    if input == [] then 0 else CountNul(input[0]) + InnerNuls(input[1..])
  }

  lemma {:induction false} EncodeAppend(a: seq<bytes>, b: seq<bytes>)
    ensures Encode(a + b) == Encode(a) + Encode(b)
  {
    if a == [] {
      assert a + b == b;
    } else {
      EncodeAppend(a[1..], b);
      assert (a + b)[1..] == a[1..] + b;
    }
  }

  lemma EncodePrefix(input: seq<bytes>, i: nat)
    requires i < |input|
    ensures Encode(input[..i + 1]) == Encode(input[..i]) + input[i] + [0]
    ensures |Encode(input[..i + 1])| <= |Encode(input)|
    ensures |Encode(input[i..])| == |input[i]| + 1 + |Encode(input[i + 1..])|
  {
    assert input[..i + 1] == input[..i] + [input[i]];
    EncodeAppend(input[..i], [input[i]]);
    assert input == input[..i + 1] + input[i + 1..];
    EncodeAppend(input[..i + 1], input[i + 1..]);
    assert input[i..][1..] == input[i + 1..];
  }

  lemma {:induction false} EncodeLength(input: seq<bytes>)
    ensures |Encode(input)| >= |input|
    ensures input != [] ==> Encode(input)[|Encode(input)| - 1] == 0
  {
    if input != [] {
      EncodeLength(input[1..]);
    }
  }

  lemma {:induction false} SplitRun(s: bytes, t: bytes, current: bytes)
    requires NulFree(s)
    ensures Split(s + [0] + t, current) == [current + s] + Split(t, [])
    decreases |s|
  {
    if s == [] {
      assert s + [0] + t == [0] + t;
      assert current + s == current;
    } else {
      var whole := s + [0] + t;
      assert s[0] in s;
      assert whole[1..] == s[1..] + [0] + t;
      assert forall x :: x in s[1..] ==> x in s;
      SplitRun(s[1..], t, current + [s[0]]);
      assert current + [s[0]] + s[1..] == current + s;
    }
  }

  /** Decoding undoes encoding ... */
  lemma {:induction false} SplitEncode(input: seq<bytes>)
    requires AllNulFree(input)
    ensures Split(Encode(input), []) == input
  {
    if input != [] {
      SplitRun(input[0], Encode(input[1..]), []);
      assert [] + input[0] == input[0];
      SplitEncode(input[1..]);
    }
  }

  lemma EncodeCons(head: bytes, rest: seq<bytes>)
    ensures Encode([head] + rest) == head + [0] + Encode(rest)
    ensures NulFree(head) && AllNulFree(rest) ==> AllNulFree([head] + rest)
  {
    assert ([head] + rest)[1..] == rest;
  }

  /** A NUL ends the current string. */
  lemma SplitAtNul(s: bytes, current: bytes)
    requires s != [] && s[0] == 0 && NulFree(current)
    requires Encode(Split(s[1..], [])) == s[1..] && AllNulFree(Split(s[1..], []))
    ensures Encode(Split(s, current)) == current + s && AllNulFree(Split(s, current))
  {
    EncodeCons(current, Split(s[1..], []));
    assert current + s == current + [0] + s[1..];
  }

  /** Any other byte joins it. */
  lemma SplitAtByte(s: bytes, current: bytes)
    requires s != [] && s[0] != 0
    ensures Split(s, current) == Split(s[1..], current + [s[0]])
    ensures current + [s[0]] + s[1..] == current + s
  {
  }

  /** ... and encoding undoes decoding, for every NUL-terminated byte string. */
  lemma {:induction false} EncodeSplit(s: bytes, current: bytes)
    requires s != [] ==> s[|s| - 1] == 0
    requires s == [] ==> current == []
    requires NulFree(current)
    ensures Encode(Split(s, current)) == current + s
    ensures AllNulFree(Split(s, current))
    decreases |s|
  {
    if s != [] && s[0] == 0 {
      EncodeSplit(s[1..], []);
      assert [] + s[1..] == s[1..];
      SplitAtNul(s, current);
    } else if s != [] {
      SplitAtByte(s, current);
      EncodeSplit(s[1..], current + [s[0]]);
    }
  }

  lemma {:induction false} CountNulAppend(s: bytes, t: bytes)
    ensures CountNul(s + t) == CountNul(s) + CountNul(t)
  {
    if s == [] {
      assert s + t == t;
    } else {
      CountNulAppend(s[1..], t);
      assert (s + t)[1..] == s[1..] + t;
    }
  }

  lemma {:induction false} CountNulZero(s: bytes)
    ensures CountNul(s) == 0 <==> NulFree(s)
  {
    if s != [] {
      CountNulZero(s[1..]);
      assert s == [s[0]] + s[1..];
    }
  }

  /** Counting NULs counts strings, exactly when no string contains one. */
  lemma {:induction false} CountNulEncode(input: seq<bytes>)
    ensures CountNul(Encode(input)) == |input| + InnerNuls(input)
    ensures InnerNuls(input) == 0 <==> AllNulFree(input)
  {
    if input != [] {
      CountNulEncode(input[1..]);
      CountNulZero(input[0]);
      CountNulAppend(input[0] + [0], Encode(input[1..]));
      CountNulAppend(input[0], [0]);
      assert input == [input[0]] + input[1..];
    }
  }

  /** Go's `uint32` sum of the lengths and terminators, with its wrap-around. */
  function ByteCount(input: seq<bytes>): uint32 {
    Wrap32(|Encode(input)|)
  }

  function StringCount(input: seq<bytes>): uint32 {
    Wrap32(|input|)
  }

  /** What a call returns: depends on sizes only, never on the memory contents. */
  function WriteResult(memSize: nat, buf: uint32, bufLimit: uint32, input: seq<bytes>): Result<uint64> {
    if StringCount(input) == 0 then Ok(0)
    else if ByteCount(input) > bufLimit then Ok(Pack(StringCount(input), ByteCount(input)))
    else if buf + ByteCount(input) > memSize then Trap
    else Ok(Pack(StringCount(input), ByteCount(input)))
  }

  predicate WritesMemory(memSize: nat, buf: uint32, bufLimit: uint32, input: seq<bytes>) {
    StringCount(input) != 0 && ByteCount(input) <= bufLimit && buf + ByteCount(input) <= memSize
  }

  /** `after` is `before` with exactly the encoded region replaced. */
  ghost predicate RegionReplaced(before: bytes, after: bytes, at: nat, region: bytes) {
    |after| == |before| && at + |region| <= |before|
    && forall i :: 0 <= i < |before| ==> after[i] == if at <= i < at + |region| then region[i - at] else before[i]
  }

  lemma RegionOutside(before: bytes, after: bytes, at: nat, region: bytes, lo: nat, hi: nat)
    requires RegionReplaced(before, after, at, region)
    requires lo <= at && at + |region| <= hi <= |before|
    ensures after[..lo] == before[..lo] && after[hi..] == before[hi..]
    ensures after[at..at + |region|] == region
  {
  }

  method CopyInto(mem: array<byte>, at: nat, s: bytes)
    requires at + |s| <= mem.Length
    modifies mem
    ensures RegionReplaced(old(mem[..]), mem[..], at, s)
  {
    forall i | 0 <= i < |s| {
      mem[at + i] := s[i];
    }
  }

  /** One write to the `bytes.Buffer` laid over guest memory. Once a write does
      not fit the view, the buffer reallocates and memory is no longer written. */
  method BufferWrite(mem: array<byte>, base: nat, capacity: nat, used: nat, attached: bool, s: bytes)
    returns (stillAttached: bool)
    requires base + capacity <= mem.Length
    requires attached ==> used <= capacity
    modifies mem
    ensures stillAttached == (attached && used + |s| <= capacity)
    ensures stillAttached ==> RegionReplaced(old(mem[..]), mem[..], base + used, s)
    ensures !stillAttached ==> mem[..] == old(mem[..])
  {
    stillAttached := attached && used + |s| <= capacity;
    if stillAttached {
      CopyInto(mem, base + used, s);
    }
  }

  lemma WrapAdd(a: int, b: int)
    ensures Wrap32(Wrap32(a) + Wrap32(b)) == Wrap32(a + b)
  {
  }

  /** The length loop of writeNULTerminated, in uint32 arithmetic. */
  method SumLengths(input: seq<bytes>) returns (byteCount: uint32)
    ensures byteCount == ByteCount(input)
  {
    byteCount := Wrap32(|input|);
    for i := 0 to |input|
      invariant byteCount == Wrap32(|input| - i + |Encode(input[..i])|)
    {
      EncodePrefix(input, i);
      WrapAdd(|input| - i + |Encode(input[..i])|, |input[i]|);
      byteCount := Wrap32(byteCount + Wrap32(|input[i]|));
    }
    assert input[..|input|] == input;
  }

  /** writeNULTerminated of handler/cstring.go. */
  method WriteNulTerminated(mem: array<byte>, buf: uint32, bufLimit: uint32, input: seq<bytes>)
    returns (r: Result<uint64>)
    modifies mem
    ensures r == WriteResult(mem.Length, buf, bufLimit, input)
    ensures !WritesMemory(mem.Length, buf, bufLimit, input) ==> mem[..] == old(mem[..])
    ensures WritesMemory(mem.Length, buf, bufLimit, input) ==>
              && mem[..buf] == old(mem[..buf])
              && mem[buf + ByteCount(input)..] == old(mem[buf + ByteCount(input)..])
    ensures WritesMemory(mem.Length, buf, bufLimit, input) && |Encode(input)| < TWO32 ==>
              RegionReplaced(old(mem[..]), mem[..], buf, Encode(input))
  {
    var count := Wrap32(|input|);
    if count == 0 {
      return Ok(0);
    }
    var byteCount := SumLengths(input);
    var countLen := Pack(count, byteCount);
    if byteCount > bufLimit {
      return Ok(countLen);
    }
    if buf + byteCount > mem.Length {
      return Trap;
    }
    WriteStrings(mem, buf, byteCount, input);
    r := Ok(countLen);
  }

  /** The writing loop of writeNULTerminated, over the view mem[base..base+capacity]. */
  method WriteStrings(mem: array<byte>, base: nat, capacity: nat, input: seq<bytes>)
    requires base + capacity <= mem.Length
    modifies mem
    ensures mem[..base] == old(mem[..base])
    ensures mem[base + capacity..] == old(mem[base + capacity..])
    ensures capacity == |Encode(input)| ==> RegionReplaced(old(mem[..]), mem[..], base, Encode(input))
  {
    var used, attached := 0, true;
    ghost var before := mem[..];
    for i := 0 to |input|
      invariant used == |Encode(input[..i])|
      invariant attached ==> used <= capacity && RegionReplaced(before, mem[..], base, Encode(input[..i]))
      invariant |Encode(input)| <= capacity ==> attached
      invariant SameOutside(before, mem[..], base, base + capacity)
    {
      EncodePrefix(input, i);
      attached := WriteString(mem, base, capacity, used, attached, input[i], before, Encode(input[..i]));
      used := used + |input[i]| + 1;
    }
    assert input[..|input|] == input;
  }

  ghost predicate SameOutside(before: bytes, after: bytes, lo: nat, hi: nat) {
    lo <= hi <= |before| == |after| && after[..lo] == before[..lo] && after[hi..] == before[hi..]
  }

  /** `b.WriteString(h); b.WriteByte(0)`. */
  method WriteString(mem: array<byte>, base: nat, capacity: nat, used: nat, attached: bool, s: bytes,
                     ghost before: bytes, ghost written: bytes)
    returns (stillAttached: bool)
    requires base + capacity <= mem.Length && |written| == used
    requires attached ==> used <= capacity && RegionReplaced(before, mem[..], base, written)
    requires SameOutside(before, mem[..], base, base + capacity)
    modifies mem
    ensures stillAttached == (attached && used + |s| + 1 <= capacity)
    ensures stillAttached ==> RegionReplaced(before, mem[..], base, written + s + [0])
    ensures SameOutside(before, mem[..], base, base + capacity)
  {
    ghost var m0 := mem[..];
    var fits := BufferWrite(mem, base, capacity, used, attached, s);
    ghost var m1 := mem[..];
    stillAttached := BufferWrite(mem, base, capacity, used + |s|, fits, [0]);
    if fits {
      RegionOutside(m0, m1, base + used, s, base, base + capacity);
    }
    if stillAttached {
      RegionOutside(m1, mem[..], base + used + |s|, [0], base, base + capacity);
      TwoWrites(before, m0, m1, mem[..], base, written, s, [0]);
    }
  }

  lemma TwoWrites(m: bytes, m0: bytes, m1: bytes, m2: bytes, at: nat, a: bytes, b: bytes, c: bytes)
    requires RegionReplaced(m, m0, at, a)
    requires RegionReplaced(m0, m1, at + |a|, b)
    requires RegionReplaced(m1, m2, at + |a| + |b|, c)
    ensures RegionReplaced(m, m2, at, a + b + c)
  {
  }
}
