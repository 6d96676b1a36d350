/** The feature bit flags of api/handler/features.go, as the set of the bits that
    are on in a word. */
module FeatureBits {
  type Features = set<nat>

  const BUFFER_REQUEST: nat := 0
  const BUFFER_RESPONSE: nat := 1
  const TRAILERS: nat := 2

  function WithEnabled(f: Features, features: Features): Features {
    f + features
  }

  predicate IsEnabled(f: Features, feature: nat) {
    feature in f
  }

  /** Every flag a word has room for. */
  const FLAGS: seq<bv32> := [
    0x1, 0x2, 0x4, 0x8, 0x10, 0x20, 0x40, 0x80, 0x100, 0x200, 0x400, 0x800, 0x1000, 0x2000, 0x4000, 0x8000,
    0x1_0000, 0x2_0000, 0x4_0000, 0x8_0000, 0x10_0000, 0x20_0000, 0x40_0000, 0x80_0000,
    0x100_0000, 0x200_0000, 0x400_0000, 0x800_0000, 0x1000_0000, 0x2000_0000, 0x4000_0000, 0x8000_0000]

  predicate On(word: bv32, flag: bv32) {
    word & flag != 0
  }

  /** The bits of a word. */
  function Flags(word: bv32): Features {
    set i: nat | i < |FLAGS| && On(word, FLAGS[i])
  }

  lemma OnUnion(f: bv32, g: bv32, flag: bv32)
    ensures On(f | g, flag) <==> On(f, flag) || On(g, flag)
  {
    assert (f | g) & flag == (f & flag) | (g & flag);
  }

  /** On words features are enabled by bitwise or and tested by bitwise and; on sets
      of bits these are union and membership. */
  lemma WordsAreFlags(f: bv32, g: bv32, i: nat)
    requires i < |FLAGS|
    ensures Flags(f | g) == WithEnabled(Flags(f), Flags(g))
    ensures f & FLAGS[i] != 0 <==> IsEnabled(Flags(f), i)
  {
    forall j: nat | j < |FLAGS|
      ensures On(f | g, FLAGS[j]) <==> On(f, FLAGS[j]) || On(g, FLAGS[j])
    {
      OnUnion(f, g, FLAGS[j]);
    }
    assert On(f, FLAGS[i]) <==> i in Flags(f);
  }

  /** A word with at most one bit on. */
  predicate Single(flag: bv32) {
    flag & (flag - 1) == 0
  }

  /** Every flag is one, byte by byte, and every byte that is not zero has one. */
  lemma Single0(i: nat)
    requires 0 <= i < 8
    ensures Single(FLAGS[i])
  {
    assert i == 0 || i == 1 || i == 2 || i == 3 || i == 4 || i == 5 || i == 6 || i == 7;
  }

  lemma Single1(i: nat)
    requires 8 <= i < 16
    ensures Single(FLAGS[i])
  {
    assert i == 8 || i == 9 || i == 10 || i == 11 || i == 12 || i == 13 || i == 14 || i == 15;
  }

  lemma Single2(i: nat)
    requires 16 <= i < 24
    ensures Single(FLAGS[i])
  {
    assert i == 16 || i == 17 || i == 18 || i == 19 || i == 20 || i == 21 || i == 22 || i == 23;
  }

  lemma Single3(i: nat)
    requires 24 <= i < 32
    ensures Single(FLAGS[i])
  {
    assert i == 24 || i == 25 || i == 26 || i == 27 || i == 28 || i == 29 || i == 30 || i == 31;
  }

  lemma SomeBit0(word: bv32) returns (i: nat)
    requires word & 0xFF != 0
    ensures i < |FLAGS| && On(word, FLAGS[i])
  {
    assert On(word, FLAGS[0]) || On(word, FLAGS[1]) || On(word, FLAGS[2]) || On(word, FLAGS[3])
        || On(word, FLAGS[4]) || On(word, FLAGS[5]) || On(word, FLAGS[6]) || On(word, FLAGS[7]);
    i :| 0 <= i < 8 && On(word, FLAGS[i]);
  }

  lemma SomeBit1(word: bv32) returns (i: nat)
    requires word & 0xFF00 != 0
    ensures i < |FLAGS| && On(word, FLAGS[i])
  {
    assert On(word, FLAGS[8]) || On(word, FLAGS[9]) || On(word, FLAGS[10]) || On(word, FLAGS[11])
        || On(word, FLAGS[12]) || On(word, FLAGS[13]) || On(word, FLAGS[14]) || On(word, FLAGS[15]);
    i :| 8 <= i < 16 && On(word, FLAGS[i]);
  }

  lemma SomeBit2(word: bv32) returns (i: nat)
    requires word & 0xFF_0000 != 0
    ensures i < |FLAGS| && On(word, FLAGS[i])
  {
    assert On(word, FLAGS[16]) || On(word, FLAGS[17]) || On(word, FLAGS[18]) || On(word, FLAGS[19])
        || On(word, FLAGS[20]) || On(word, FLAGS[21]) || On(word, FLAGS[22]) || On(word, FLAGS[23]);
    i :| 16 <= i < 24 && On(word, FLAGS[i]);
  }

  lemma SomeBit3(word: bv32) returns (i: nat)
    requires word & 0xFF00_0000 != 0
    ensures i < |FLAGS| && On(word, FLAGS[i])
  {
    assert On(word, FLAGS[24]) || On(word, FLAGS[25]) || On(word, FLAGS[26]) || On(word, FLAGS[27])
        || On(word, FLAGS[28]) || On(word, FLAGS[29]) || On(word, FLAGS[30]) || On(word, FLAGS[31]);
    i :| 24 <= i < 32 && On(word, FLAGS[i]);
  }

  lemma SomeBit(word: bv32) returns (i: nat)
    requires word != 0
    ensures i < |FLAGS| && On(word, FLAGS[i])
  {
    if word & 0xFF != 0 {
      i := SomeBit0(word);
    } else if word & 0xFF00 != 0 {
      i := SomeBit1(word);
    } else if word & 0xFF_0000 != 0 {
      i := SomeBit2(word);
    } else {
      i := SomeBit3(word);
    }
  }

  lemma OnLeft(f: bv32, g: bv32, flag: bv32)
    ensures On(f & g, flag) ==> On(f, flag)
  {
    assert (f & g) & flag == (f & flag) & g;
  }

  lemma Meet(f: bv32, g: bv32, flag: bv32)
    requires Single(flag) && On(f, flag) && On(g, flag)
    ensures f & g != 0
  {
  }

  /** The test also takes a group of flags: it asks whether any of them is on. */
  lemma GroupTest(f: bv32, group: bv32)
    ensures f & group != 0 <==> exists i :: i in Flags(group) && IsEnabled(Flags(f), i)
  {
    if f & group != 0 {
      var i := SomeBit(f & group);
      assert f & group == group & f;
      OnLeft(f, group, FLAGS[i]);
      OnLeft(group, f, FLAGS[i]);
      assert i in Flags(group) && IsEnabled(Flags(f), i);
    }
    forall i | i in Flags(group) && IsEnabled(Flags(f), i) ensures f & group != 0 {
      if i < 8 {
        Single0(i);
      } else if i < 16 {
        Single1(i);
      } else if i < 24 {
        Single2(i);
      } else {
        Single3(i);
      }
      Meet(f, group, FLAGS[i]);
    }
  }

  /** What two layers need to stay equal: re-enabling a superset changes nothing more. */
  lemma EnabledAbsorbs(f: Features, g: Features)
    ensures WithEnabled(f, WithEnabled(f, g)) == WithEnabled(f, g)
    ensures WithEnabled(f, f) == f
  {
  }
}
