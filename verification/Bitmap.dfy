/** Validity bitmaps: bytes whose bit i%8 of byte i/8 tells whether row i holds a value (data_chunk.hpp). */
module Bitmap {

  type Byte = bv8

  type Bits = seq<Byte>

  function Mask(k: nat): Byte
    requires k < 8
  {
    1 << k
  }

  predicate Has(b: Byte, k: nat)
    requires k < 8
  {
    b & Mask(k) != 0
  }

  function Without(b: Byte, k: nat): Byte
    requires k < 8
  {
    b & !Mask(k)
  }

  function With(b: Byte, k: nat): Byte
    requires k < 8
  {
    b | Mask(k)
  }

  lemma MaskBits(b: Byte, k: nat, j: nat)
    requires k < 8 && j < 8
    ensures (b & !Mask(k)) & Mask(j) == if j == k then 0 else b & Mask(j)
    ensures (b | Mask(k)) & Mask(j) == if j == k then Mask(j) else b & Mask(j)
    ensures Mask(j) != 0 && 0xFF & Mask(j) == Mask(j) && 0x00 & Mask(j) == 0
  {
  }

  lemma ByteBits(b: Byte, k: nat, j: nat)
    requires k < 8 && j < 8
    ensures Has(Without(b, k), j) <==> j != k && Has(b, j)
    ensures Has(With(b, k), j) <==> j == k || Has(b, j)
    ensures Has(0xFF, j) && !Has(0x00, j)
  {
    hide Mask;
    MaskBits(b, k, j);
  }

  predicate HasBit(bits: Bits, i: nat)
    requires i / 8 < |bits|
  {
    Has(bits[i / 8], i % 8)
  }

  function Clear(bits: Bits, i: nat): (r: Bits)
    requires i / 8 < |bits|
    ensures |r| == |bits|
  {
    bits[i / 8 := Without(bits[i / 8], i % 8)]
  }

  function Set(bits: Bits, i: nat): (r: Bits)
    requires i / 8 < |bits|
    ensures |r| == |bits|
  {
    bits[i / 8 := With(bits[i / 8], i % 8)]
  }

  /** std::vector::resize with a fill byte. */
  function Resized(bits: Bits, n: nat, fill: Byte): (r: Bits)
    ensures |r| == n
  {
    if n <= |bits| then bits[..n] else bits + seq(n - |bits|, _ => fill)
  }

  lemma SameRow(i: nat, j: nat)
    ensures i == j <==> i / 8 == j / 8 && i % 8 == j % 8
  {
  }

  /** Clearing or setting a row's bit is felt by no other row, whatever byte it shares. */
  lemma BitsOfRows(bits: Bits, i: nat, j: nat)
    requires i / 8 < |bits| && j / 8 < |bits|
    ensures HasBit(Clear(bits, i), j) <==> j != i && HasBit(bits, j)
    ensures HasBit(Set(bits, i), j) <==> j == i || HasBit(bits, j)
  {
    hide Has, With, Without;
    SameRow(i, j);
    ByteBits(bits[i / 8], i % 8, j % 8);
  }

  lemma FreshBits(j: nat)
    ensures Has(0xFF, j % 8) && !Has(0x00, j % 8)
  {
    ByteBits(0, 0, j % 8);
  }
}
