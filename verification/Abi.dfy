/** Values that cross the boundary between the Go host and a WebAssembly guest:
    fixed-width integers, 64-bit results packed from two halves, and the outcome
    of a host function or guest export. */
module Abi {
  const TWO32 := 0x1_0000_0000

  type byte = x: int | 0 <= x < 256
  type uint32 = x: int | 0 <= x < 0x1_0000_0000
  type uint64 = x: int | 0 <= x < 0x1_0000_0000_0000_0000
  type bytes = seq<byte>

  datatype Option<+T> = None | Some(value: T)

  /** A host function either returns or panics; a guest export either returns or
      traps. A host panic inside a guest call surfaces as a trap. */
  datatype Result<+T> = Ok(value: T) | Trap

  /** The two's-complement wrap of Go's uint32 and of WebAssembly i32 arithmetic. */
  function Wrap32(x: int): (r: uint32)
    ensures 0 <= x < TWO32 ==> r == x
    ensures -TWO32 <= x < 0 ==> r == x + TWO32
  {
    x % TWO32
  }

  /** `uint64(hi)<<32 | uint64(lo)`: the halves occupy disjoint bits, so the
      bitwise or is an addition. */
  function Pack(hi: uint32, lo: uint32): uint64 {
    hi * TWO32 + lo
  }

  function Hi(v: uint64): uint32 {
    v / TWO32
  }

  function Lo(v: uint64): uint32 {
    v % TWO32
  }

  lemma Unpack(hi: uint32, lo: uint32)
    ensures Hi(Pack(hi, lo)) == hi && Lo(Pack(hi, lo)) == lo
  {
  }

  /** Text of a data segment or Go string literal as bytes. */
  function Ascii(s: string): (b: bytes)
    ensures |b| == |s|
    ensures forall i :: 0 <= i < |s| ==> b[i] == s[i] as int % 256
  {
    seq(|s|, i requires 0 <= i < |s| => s[i] as int % 256)
  }

  function Min(a: nat, b: nat): nat {
    if a <= b then a else b
  }

  lemma SliceOfSlice(m: bytes, lo: nat, hi: nat, a: nat, b: nat)
    requires lo <= a <= b <= hi <= |m|
    ensures m[lo..hi][a - lo..b - lo] == m[a..b]
  {
    forall j | 0 <= j < b - a
      ensures m[lo..hi][a - lo..b - lo][j] == m[a..b][j]
    {
      assert m[lo..hi][a - lo + j] == m[a + j];
    }
  }

  lemma SubRange(m: bytes, m': bytes, lo: nat, hi: nat, a: nat, b: nat)
    requires lo <= a <= b <= hi <= |m| == |m'| && m'[lo..hi] == m[lo..hi]
    ensures m'[a..b] == m[a..b]
  {
    SliceOfSlice(m, lo, hi, a, b);
    SliceOfSlice(m', lo, hi, a, b);
  }
}
