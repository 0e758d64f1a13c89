/** The cell bitmap of a pool page: bytes, one bit for each cell, lowest bit first. */
module PoolBits {
  /** The ULONG value `1 << k` for the bits of a byte. */
  function Mask(k: nat): bv8
    requires k < 8
  {
    match k
    case 0 => 0x01 case 1 => 0x02 case 2 => 0x04 case 3 => 0x08
    case 4 => 0x10 case 5 => 0x20 case 6 => 0x40 case _ => 0x80
  }

  /** `mask <<= 1; mask = (mask & 0xFF) | (mask >> 8);` on a ULONG below 256. */
  function Rotate(mask: bv8): bv8 {
    var wide: bv32 := (mask as bv32) << 1;
    ((wide & 0xFF) | (wide >> 8)) as bv8
  }

  predicate ByteBit(b: bv8, k: nat)
    requires k < 8
  {
    b & Mask(k) != 0
  }

  /** The bit of cell `i`. */
  predicate Bit(m: seq<bv8>, i: nat)
    requires i < 8 * |m|
  {
    ByteBit(m[i / 8], i % 8)
  }

  /** The mask walks through the bits of a byte and then starts the next byte: `bitmap += mask & 1`. */
  lemma RotateWalks(i: nat)
    ensures Rotate(Mask(i % 8)) == Mask((i + 1) % 8)
    ensures ((i + 1) / 8 == if Mask((i + 1) % 8) & 1 == 1 then i / 8 + 1 else i / 8)
    ensures (Mask(i % 8) == 1) <==> i % 8 == 0
  {
    var k := i % 8;
    assert (i + 1) % 8 == (k + 1) % 8;
    assert k == 0 || k == 1 || k == 2 || k == 3 || k == 4 || k == 5 || k == 6 || k == 7;
  }

  lemma ByteSet(b: bv8, j: nat, k: nat)
    requires j < 8 && k < 8
    ensures ByteBit(b | Mask(j), k) <==> j == k || ByteBit(b, k)
  {}

  lemma ByteClear(b: bv8, j: nat, k: nat)
    requires j < 8 && k < 8
    ensures ByteBit(b & !Mask(j), k) <==> j != k && ByteBit(b, k)
  {}

  lemma ByteFull(k: nat)
    requires k < 8
    ensures ByteBit(0xFF, k) && !ByteBit(0x00, k)
  {}
}
