/** The byte-packed bit maps of kernel/utilities/bytes.c. */
module Bitmap {

  /** Bit `j` of one byte: `(b >> j) & 1`. */
  predicate BitOf(b: bv8, j: nat)
    requires j < 8
  {
    (b >> j) & 1 == 1
  }

  // Bits of combined bytes.

  lemma OrBit(b: bv8, c: bv8, i: nat)
    requires i < 8
    ensures BitOf(b | c, i) == (BitOf(b, i) || BitOf(c, i))
  {
  }

  lemma AndBit(b: bv8, c: bv8, i: nat)
    requires i < 8
    ensures BitOf(b & c, i) == (BitOf(b, i) && BitOf(c, i))
  {
  }

  lemma XorBit(b: bv8, c: bv8, i: nat)
    requires i < 8
    ensures BitOf(b ^ c, i) == (BitOf(b, i) != BitOf(c, i)) && BitOf(!c, i) == !BitOf(c, i)
  {
    if i == 0 {} else if i == 1 {} else if i == 2 {} else if i == 3 {}
    else if i == 4 {} else if i == 5 {} else if i == 6 {} else {}
  }

  lemma MaskBit(j: nat, i: nat)
    requires j < 8 && i < 8
    ensures BitOf(1 << j, i) == (i == j)
  {
  }

  // Writing bit `j` of a byte leaves the seven other bits alone.

  lemma SetByte(b: bv8, j: nat, i: nat)
    requires j < 8 && i < 8
    ensures BitOf(b | (1 << j), i) == (i == j || BitOf(b, i))
  {
    OrBit(b, 1 << j, i);
    MaskBit(j, i);
  }

  lemma ClearByte(b: bv8, j: nat, i: nat)
    requires j < 8 && i < 8
    ensures BitOf(b & !(1 << j), i) == (i != j && BitOf(b, i))
  {
    AndBit(b, !(1 << j), i);
    XorBit(b, 1 << j, i);
    MaskBit(j, i);
  }

  lemma ToggleByte(b: bv8, j: nat, i: nat)
    requires j < 8 && i < 8
    ensures BitOf(b ^ (1 << j), i) == (if i == j then !BitOf(b, i) else BitOf(b, i))
  {
    XorBit(b, 1 << j, i);
    MaskBit(j, i);
  }

  /** A bit map held in an array of bytes: bit `i` is bit `i & 7` of byte `i >> 3`. */
  class Map {
    const data: array<bv8>

    constructor (bytes: nat, fill: bv8)
      requires fill == 0 || fill == 0xff
      ensures fresh(data)
      ensures |Bits()| == 8 * bytes
      ensures forall i :: 0 <= i < |Bits()| ==> Bits()[i] == (fill == 0xff)
    {
      data := new bv8[bytes](_ => fill);
    }

    ghost function Bits(): (s: seq<bool>)
      reads data
      ensures |s| == 8 * data.Length
    {
      seq(8 * data.Length, i requires 0 <= i < 8 * data.Length reads data => BitOf(data[i / 8], i % 8))
    }

    method Test(i: nat) returns (r: bool)
      requires i < |Bits()|
      ensures r == Bits()[i]
    {
      r := (data[i / 8] >> (i % 8)) & 1 == 1;
    }

    /** Replaces the byte holding bit `i` by one that differs from it at most in that bit. */
    method Store(i: nat, b: bv8, ghost v: bool)
      requires i < |Bits()|
      requires forall k :: 0 <= k < 8 ==> BitOf(b, k) == (if k == i % 8 then v else BitOf(data[i / 8], k))
      modifies data
      ensures Bits() == old(Bits())[i := v]
    {
      data[i / 8] := b;
    }

    method TestAndSet(i: nat) returns (r: bool)
      requires i < |Bits()|
      modifies data
      ensures Bits() == old(Bits())[i := true]
      ensures r == old(Bits()[i])
    {
      r := Test(i);
      forall k: nat | k < 8 { SetByte(data[i / 8], i % 8, k); }
      Store(i, data[i / 8] | (1 << (i % 8)), true);
    }

    method TestAndClear(i: nat) returns (r: bool)
      requires i < |Bits()|
      modifies data
      ensures Bits() == old(Bits())[i := false]
      ensures r == old(Bits()[i])
    {
      r := Test(i);
      forall k: nat | k < 8 { ClearByte(data[i / 8], i % 8, k); }
      Store(i, data[i / 8] & !(1 << (i % 8)), false);
    }

    /** Returns the bit after the flip, as the source does. */
    method Toggle(i: nat) returns (r: bool)
      requires i < |Bits()|
      modifies data
      ensures Bits() == old(Bits())[i := !old(Bits()[i])]
      ensures r == Bits()[i]
    {
      forall k: nat | k < 8 { ToggleByte(data[i / 8], i % 8, k); }
      Store(i, data[i / 8] ^ (1 << (i % 8)), !Bits()[i]);
      r := Test(i);
    }
  }
}
