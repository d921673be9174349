/** Bit-level vocabulary of the GRF encoder: the per-column mask table,
    reading one bit of a byte, and the padding mask of a row's bytes.
    Bytes are bv8: the encoder's signed-byte operations (`|=`, `^= 0xFF`,
    the `(byte)` cast in the mask table) only ever touch the low eight bits,
    which is exactly what a bv8 holds. */
module Bits {

  /** Mask for column offset k within a byte: offset 0 is the most
      significant bit, offset 7 the least significant one. */
  function Mask(k: nat): bv8
    requires k < 8
  {
    match k
    case 0 => 0x80
    case 1 => 0x40
    case 2 => 0x20
    case 3 => 0x10
    case 4 => 0x08
    case 5 => 0x04
    case 6 => 0x02
    case 7 => 0x01
  }

  /** The table is 0x80 shifted right by the column offset. */
  lemma MaskShift(k: nat)
    requires k < 8
    ensures Mask(k) == (0x80 as bv8) >> k
  {
  }

  /** Bit k of b, counted from the most significant bit. */
  predicate Bit(b: bv8, k: nat)
    requires k < 8
  {
    b & Mask(k) != 0
  }

  /** The mask table of App's static initialiser: entry 7 is 1 and entry
      6-i is entry 7 shifted left by i+1. The loop is proved to produce
      exactly the closed form 0x80 >> i that the rest of the model uses. */
  method InitBitMask() returns (bitMask: array<bv8>)
    ensures bitMask.Length == 8
    ensures forall i :: 0 <= i < 8 ==> bitMask[i] == Mask(i)
  {
    bitMask := new bv8[8];
    bitMask[7] := 1;
    var i := 0;
    while i < 7
      invariant 0 <= i <= 7
      invariant bitMask[7] == 1
      invariant forall j :: 7 - i <= j < 8 ==> bitMask[j] == Mask(j)
    {
      bitMask[6 - i] := bitMask[7] << (i + 1);
      i := i + 1;
    }
  }

  /** A mask has exactly its own bit set. */
  lemma MaskBit(m: nat, k: nat)
    requires m < 8 && k < 8
    ensures Bit(Mask(m), k) <==> m == k
  {
  }

  /** A bit of an OR is set iff it is set in either operand. */
  lemma OrBit(a: bv8, b: bv8, k: nat)
    requires k < 8
    ensures Bit(a | b, k) <==> Bit(a, k) || Bit(b, k)
  {
  }

  /** OR-ing a mask in sets that bit and leaves every other bit as it was. */
  lemma OrMaskBit(b: bv8, m: nat, k: nat)
    requires m < 8 && k < 8
    ensures Bit(b | Mask(m), k) <==> Bit(b, k) || m == k
  {
    OrBit(b, Mask(m), k);
    MaskBit(m, k);
  }

  /** OrMaskBit for all eight bits at once. */
  lemma OrMaskBits(b: bv8, m: nat)
    requires m < 8
    ensures forall k :: 0 <= k < 8 ==> (Bit(b | Mask(m), k) <==> Bit(b, k) || k == m)
  {
    forall k | 0 <= k < 8
      ensures Bit(b | Mask(m), k) <==> Bit(b, k) || k == m
    {
      OrMaskBit(b, m, k);
    }
  }

  /** XOR with 0xFF complements every bit. */
  lemma FlipBit(b: bv8, k: nat)
    requires k < 8
    ensures Bit(b ^ 0xFF, k) <==> !Bit(b, k)
  {
  }

  /** Two bytes with the same eight bits are equal. */
  lemma ByteExt(a: bv8, b: bv8)
    requires forall k :: 0 <= k < 8 ==> (Bit(a, k) <==> Bit(b, k))
    ensures a == b
  {
    assert Bit(a, 0) == Bit(b, 0) && Bit(a, 1) == Bit(b, 1);
    assert Bit(a, 2) == Bit(b, 2) && Bit(a, 3) == Bit(b, 3);
    assert Bit(a, 4) == Bit(b, 4) && Bit(a, 5) == Bit(b, 5);
    assert Bit(a, 6) == Bit(b, 6) && Bit(a, 7) == Bit(b, 7);
  }

  /** The padding bits of byte j of a row of `width` pixels: those whose
      column 8*j + k lies at or beyond the width. */
  function PaddingMask(width: nat, j: nat): (m: bv8)
    ensures forall k :: 0 <= k < 8 ==> (Bit(m, k) <==> 8 * j + k >= width)
  {
    var w := width - 8 * j;
    if w <= 0 then 0xFF
    else if w >= 8 then 0
    else
      var m: bv8 := 0xFF >> w;
      assert forall k :: 0 <= k < 8 ==> (Bit(m, k) <==> k >= w) by {
        forall k | 0 <= k < 8 ensures Bit(m, k) <==> k >= w {
          ShiftedOnesBit(w, k);
        }
      }
      m
  }

  /** 0xFF shifted right by w keeps exactly the bits at offsets w..7. */
  lemma ShiftedOnesBit(w: nat, k: nat)
    requires 0 < w < 8 && k < 8
    ensures Bit(0xFF >> w, k) <==> k >= w
  {
    match w
    case 1 => assert (0xFF as bv8) >> 1 == 0x7F;
    case 2 => assert (0xFF as bv8) >> 2 == 0x3F;
    case 3 => assert (0xFF as bv8) >> 3 == 0x1F;
    case 4 => assert (0xFF as bv8) >> 4 == 0x0F;
    case 5 => assert (0xFF as bv8) >> 5 == 0x07;
    case 6 => assert (0xFF as bv8) >> 6 == 0x03;
    case 7 => assert (0xFF as bv8) >> 7 == 0x01;
  }
}
