/** `SetCompact` and `GetCompact` on limbs, by the shifts of `BigUint`. */
module Compact {
  import opened Powers
  import opened Arithmetic
  import opened Limbs
  import opened Shifts
  import opened Division
  import opened BigUint
  import opened CompactSpec

  lemma {:induction false} PowOfBytes(e: nat)
    ensures Pow(2, 8 * e) == Exp(e)
  {
    if e > 0 {
      PowOfBytes(e - 1);
      PowAdd(2, 8, 8 * (e - 1));
      PowersOfTwo();
    }
  }

  lemma LimitIsModulus()
    ensures Weight(8) == Limit()
  {
    Pow2Weight(8);
    PowOfBytes(32);
  }

  lemma BytesOfBits(v: nat, n: nat)
    requires IsBitLength(v, n)
    ensures ByteLength(v) == (n + 7) / 8
  {
    hide Pow, Exp;
    if v > 0 {
      var k := (n + 7) / 8;
      PowOfBytes(k);
      PowOfBytes(k - 1);
      PowMonotone(2, 8 * (k - 1), n - 1);
      PowMonotone(2, n, 8 * k);
      ByteLengthIs(v, k);
    }
  }

  /** The two low limbs, and nothing above them. */
  lemma LowLimbs(x: seq<Limb>)
    requires |x| >= 2
    ensures Value(x[..2]) == x[0] + x[1] * BASE
    ensures Value(x) < BASE * BASE ==> Value(x) == x[0] + x[1] * BASE
  {
    hide Value;
    ValueTakeNext(x, 0);
    ValueTakeNext(x, 1);
    assert x[..0] == [];
    EmptyValue();
    assert Weight(0) == 1 && Weight(1) == BASE && Weight(2) == BASE * BASE by { LowWeights(); }
    ValueSplit(x, 2);
  }

  lemma EmptyValue()
    ensures Value([]) == 0
  {
  }

  lemma LowWeights()
    ensures Weight(0) == 1 && Weight(1) == BASE && Weight(2) == BASE * BASE
  {
    WeightUp(0);
    WeightUp(1);
  }

  method AssignLow64(u: Uint, b: nat)
    requires u.pn.Length >= 2 && b < U64
    modifies u.pn
    ensures u.Val() == b
  {
    hide Value, Weight;
    u.Clear();
    ghost var zeros := u.pn[..];
    u.pn[0] := b % BASE;
    u.pn[1] := b / BASE;
    ghost var x: seq<Limb> := u.pn[..];
    LowLimbs(x);
    ValueSplit(x, 2);
    ValueZeros(x[2..]);
  }

  method GetLow64(u: Uint) returns (b: nat)
    requires u.pn.Length >= 2
    ensures u.Val() < U64 ==> b == u.Val()
  {
    hide Value, Weight;
    LowLimbs(u.pn[..]);
    PowersOfTwo();
    OrDisjoint(u.pn[0], u.pn[1], 32);
    b := Or(u.pn[0], (u.pn[1] as int) * BASE);
  }

  method SetCompact(u: Uint, nCompact: nat) returns (fNegative: bool, fOverflow: bool)
    requires u.pn.Length == 8 && nCompact < U32
    modifies u.pn
    ensures u.Val() == Decoded(nCompact)
    ensures fNegative <==> Negative(nCompact)
    ensures fOverflow <==> Overflow(nCompact)
  {
    hide Value, Weight, Exp, Pow;
    var nSize := nCompact / 0x100_0000;
    var nWord := nCompact % 0x80_0000;
    WordBound(nCompact);
    LimitIsModulus();
    SmallExps();
    PowersOfTwo();
    if nSize <= 3 {
      PowOfBytes(3 - nSize);
      nWord := nWord / Pow(2, 8 * (3 - nSize));
      AssignLow64(u, nWord);
      ExpMonotone(3, 32);
      assert Meant(nCompact) == nWord * 1 == nWord;
      ModUnique(nWord, 0, Limit(), nWord);
    } else {
      AssignLow64(u, nWord);
      PowOfBytes(nSize - 3);
      u.ShiftLeftAssign(8 * (nSize - 3));
    }
    fNegative := nWord != 0 && (nCompact / 0x80_0000) % 2 == 1;
    fOverflow := nWord != 0 && (nSize > 34 || (nWord > 0xff && nSize > 33) || (nWord > 0xffff && nSize > 32));
  }

  method GetCompact(u: Uint, fNegative: bool) returns (nCompact: nat)
    requires u.pn.Length == 8
    ensures nCompact == Encoded(u.Val(), fNegative) && nCompact < U32
  {
    hide Value, Weight, Exp, Pow, IsBitLength, Or, EncodedWord, EncodedSize, Leading, ByteLength;
    ghost var x := u.Val();
    ValueBound(u.pn[..]);
    LimitIsModulus();
    SizeBound(x);
    var bits := u.BitLength();
    BytesOfBits(x, bits);
    var nSize := (bits + 7) / 8;
    nCompact := LeadingBytes(u, nSize);
    LeadingBounds(x);
    EncodedWordIs(x);
    // A mantissa that would read as negative is shortened by a byte.
    if (nCompact / 0x80_0000) % 2 == 1 {
      nCompact := nCompact / 256;
      nSize := nSize + 1;
    }
    assert nCompact == EncodedWord(x) && nSize == EncodedSize(x);
    EncodedWordBound(x);
    nCompact := Pack(nCompact, nSize, fNegative);
  }

  method Pack(word: nat, nSize: nat, fNegative: bool) returns (nCompact: nat)
    requires word < 0x80_0000 && nSize < 256
    ensures nCompact == word + nSize * 0x100_0000 + if fNegative && word != 0 then 0x80_0000 else 0
  {
    hide Or, Pow;
    PowsOfMantissa();
    OrDisjoint(word, nSize, 24);
    nCompact := Or(word, nSize * 0x100_0000);
    Packed(word, nSize, 0);
    if fNegative && nCompact % 0x80_0000 != 0 {
      OrBit(nCompact, 23);
      nCompact := Or(nCompact, 0x80_0000);
    }
  }

  lemma EncodedWordIs(x: nat)
    ensures EncodedWord(x) == (if Leading(x) >= 0x80_0000 then Leading(x) / 256 else Leading(x))
    ensures EncodedSize(x) == ByteLength(x) + if Leading(x) >= 0x80_0000 then 1 else 0
  {
  }

  lemma PowsOfMantissa()
    ensures Pow(2, 23) == 0x80_0000 && Pow(2, 24) == 0x100_0000
  {
    PowersOfTwo();
    PowAdd(2, 16, 8);
    assert Pow(2, 24) == 2 * Pow(2, 23);
  }

  method LeadingBytes(u: Uint, nSize: nat) returns (lead: nat)
    requires u.pn.Length == 8 && nSize == ByteLength(u.Val())
    ensures lead == Leading(u.Val())
  {
    hide Value, Weight, Exp, Pow, ByteLength;
    ghost var x := u.Val();
    LeadingBounds(x);
    ByteLengthBounds(x);
    SmallExps();
    if nSize <= 3 {
      ExpMonotone(nSize, 3);
      var low := GetLow64(u);
      PowOfBytes(3 - nSize);
      lead := low * Pow(2, 8 * (3 - nSize));
    } else {
      var bn := new Uint.Copy(u);
      PowOfBytes(nSize - 3);
      bn.ShiftRightAssign(8 * (nSize - 3));
      lead := GetLow64(bn);
    }
  }
}
