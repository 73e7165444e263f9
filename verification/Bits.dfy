/** Single bits of a byte, as the firmware's bitmaps and engine masks use them. */
module Bits {
  function BitMask(i: nat): (m: bv8)
    requires i < 8
  {
    match i
    case 0 => 0x01 case 1 => 0x02 case 2 => 0x04 case 3 => 0x08
    case 4 => 0x10 case 5 => 0x20 case 6 => 0x40 case 7 => 0x80
  }

  predicate HasBit(b: bv8, i: nat)
    requires i < 8
  {
    b & BitMask(i) != 0
  }

  /** A write to flash can clear bits but not set any. */
  function Burnt(was: bv8, b: bv8): bv8 { was & b }

  lemma BurntFacts(was: bv8, b: bv8)
    ensures Burnt(0xFF, b) == b && Burnt(Burnt(was, b), b) == Burnt(was, b)
  {
  }

  lemma MasksApart(i: nat, j: nat)
    requires i < 8 && j < 8
    ensures (i != j ==> BitMask(i) & BitMask(j) == 0) && BitMask(i) & BitMask(i) != 0
  {
  }

  /** Or-ing in one bit sets that bit and no other. */
  lemma SetOneBit(b: bv8, i: nat, j: nat)
    requires i < 8 && j < 8
    ensures HasBit(b | BitMask(i), j) == (i == j || HasBit(b, j))
  {
    MasksApart(i, j);
    BitOr(b, BitMask(i), BitMask(j));
  }

  lemma BitOr(b: bv8, m: bv8, k: bv8)
    ensures (b | m) & k != 0 <==> b & k != 0 || m & k != 0
  {
  }

  /** And-ing with the complement of one bit clears that bit and no other. */
  lemma ClearOneBit(b: bv8, i: nat, j: nat)
    requires i < 8 && j < 8
    ensures HasBit(b & !BitMask(i), j) == (i != j && HasBit(b, j))
  {
    MasksApart(i, j);
    BitAndNot(b, BitMask(i), BitMask(j));
  }

  lemma BitAndNot(b: bv8, m: bv8, k: bv8)
    ensures m & k == 0 ==> (b & !m) & k == b & k
    ensures m == k ==> (b & !m) & k == 0
  {
  }
}
