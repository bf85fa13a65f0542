/** The bits of a byte. */
module Bytes {

  function Mask(i: nat): bv8
    requires i < 8
  {
    1 << i
  }

  predicate Bit(b: bv8, i: nat)
    requires i < 8
  {
    b & Mask(i) != 0
  }

  lemma SetBit(b: bv8, i: nat, j: nat)
    requires i < 8 && j < 8
    ensures Bit(b | Mask(i), j) == (i == j || Bit(b, j))
  {
    Masks(i);
    Masks(j);
  }

  lemma Masks(i: nat)
    requires i < 8
    ensures Mask(i) == [1, 2, 4, 8, 16, 32, 64, 128][i]
  {
    if i == 0 { assert Mask(0) == 1; }
    else if i == 1 { assert Mask(1) == 2; }
    else if i == 2 { assert Mask(2) == 4; }
    else if i == 3 { assert Mask(3) == 8; }
    else if i == 4 { assert Mask(4) == 16; }
    else if i == 5 { assert Mask(5) == 32; }
    else if i == 6 { assert Mask(6) == 64; }
    else { assert Mask(7) == 128; }
  }

  lemma ClearBit(b: bv8, i: nat, j: nat)
    requires i < 8 && j < 8
    ensures Bit(b & !Mask(i), j) == (i != j && Bit(b, j))
  {
    Masks(i);
    Masks(j);
  }
}
