/** Single bits of a byte, by mask. */
module ByteBits {

  /** The byte mask that selects bit `i`. */
  function Mask(i: nat): bv8
    requires i < 8
  {
    match i
    case 0 => 1 case 1 => 2 case 2 => 4 case 3 => 8 case 4 => 16 case 5 => 32 case 6 => 64 case _ => 128
  }

  predicate BitAt(b: bv8, i: nat)
    requires i < 8
  {
    b & Mask(i) != 0
  }

  lemma SetBitIsExact(b: bv8, j: nat, i: nat)
    requires i < 8 && j < 8
    ensures BitAt(b | Mask(j), i) == (i == j || BitAt(b, i))
    ensures BitAt(b & !Mask(j), i) == (i != j && BitAt(b, i))
  {
    SetOne(b, j, i);
    ClearOne(b, j, i);
    hide Mask, BitAt;
  }

  lemma SetOne(b: bv8, j: nat, i: nat)
    requires i < 8 && j < 8
    ensures BitAt(b | Mask(j), i) == (i == j || BitAt(b, i))
  {}

  lemma ClearOne(b: bv8, j: nat, i: nat)
    requires i < 8 && j < 8
    ensures BitAt(b & !Mask(j), i) == (i != j && BitAt(b, i))
  {}
}
