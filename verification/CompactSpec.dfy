/**
 The compact form of a 256-bit target, `src/arith_uint256.cpp`: one byte of size, a sign bit and a mantissa of
 23 bits.
 */
module CompactSpec {
  import opened Powers
  import opened Arithmetic

  const U32: nat := 0x1_0000_0000

  function Exp(e: nat): (p: nat)
    ensures p > 0
  {
    PowPositive(256, e);
    Pow(256, e)
  }

  function Size(c: nat): nat { c / 0x100_0000 }

  function Quotient(a: nat, d: nat): nat
    requires d > 0
  {
    a / d
  }

  /** The mantissa, cut down when the size is below three bytes. */
  function Word(c: nat): nat {
    var word := c % 0x80_0000;
    if Size(c) <= 3 then Quotient(word, Exp(3 - Size(c))) else word
  }

  predicate SignBit(c: nat) { (c / 0x80_0000) % 2 == 1 }

  /** The number a compact form is meant to stand for, of any size. */
  function Meant(c: nat): nat {
    MulNonNegative(Word(c), Exp(if Size(c) <= 3 then 0 else Size(c) - 3));
    Word(c) * Exp(if Size(c) <= 3 then 0 else Size(c) - 3)
  }

  predicate Negative(c: nat) { Word(c) != 0 && SignBit(c) }

  predicate Overflow(c: nat) {
    Word(c) != 0 && (Size(c) > 34 || (Word(c) > 0xff && Size(c) > 33) || (Word(c) > 0xffff && Size(c) > 32))
  }

  function Limit(): (m: nat)
    ensures m > 0
  {
    Exp(32)
  }

  /** What the 256-bit number becomes. */
  function Decoded(c: nat): nat { Meant(c) % Limit() }

  lemma ExpAdd(e: nat, f: nat)
    ensures Exp(e + f) == Exp(e) * Exp(f)
  {
    PowAdd(256, e, f);
  }

  lemma ExpMonotone(e: nat, f: nat)
    requires e <= f
    ensures Exp(e) <= Exp(f)
  {
    PowMonotone(256, e, f);
  }

  lemma SmallExps()
    ensures Exp(0) == 1 && Exp(1) == 0x100 && Exp(2) == 0x1_0000 && Exp(3) == 0x100_0000
  {
    assert Pow(256, 0) == 1;
    assert Pow(256, 1) == 256;
    assert Pow(256, 2) == 65536;
    assert Pow(256, 3) == 0x100_0000;
  }

  lemma WordBound(c: nat)
    ensures Word(c) < 0x80_0000
  {
    if Size(c) <= 3 {
      DivShrinks(c % 0x80_0000, Exp(3 - Size(c)));
    }
  }

  lemma DivShrinks(a: nat, d: nat)
    requires d > 0
    ensures a / d <= a
  {
    MulLe(1, d, a / d);
    assert a == d * (a / d) + a % d;
    assert (a / d) * 1 <= (a / d) * d;
  }

  /** The flag is raised exactly when the number meant does not fit 256 bits. */
  lemma OverflowIsExact(c: nat)
    ensures Overflow(c) <==> Meant(c) >= Limit()
  {
    hide Exp, Size, Word;
    var w, size := Word(c), Size(c);
    WordBound(c);
    SmallExps();
    if size <= 3 {
      ExpMonotone(3, 32);
      assert w * Exp(0) == w;
    } else if size <= 32 {
      ExpAdd(3, size - 3);
      ExpMonotone(size, 32);
      Below(w, Exp(3), Exp(size - 3));
    } else if size <= 34 {
      ExpAdd(35 - size, size - 3);
      Threshold(w, Exp(35 - size), Exp(size - 3));
    } else {
      ExpMonotone(32, size - 3);
      if w > 0 {
        MulLe(1, w, Exp(size - 3));
      }
    }
  }

  /**
   The number meant, read off the 32 bits: the mantissa in the low 23 bits times 256 to the power of the size in
   the high byte less three, rounded down when that power is negative; bit 23 is the sign of a number that is
   not zero.
   */
  lemma MeantIs(c: nat)
    ensures
      var mantissa, size := c % 0x80_0000, c / 0x100_0000;
      && (size >= 3 ==> Meant(c) == mantissa * Pow(256, size - 3))
      && (size < 3 ==>
            Meant(c) * Pow(256, 3 - size) <= mantissa < (Meant(c) + 1) * Pow(256, 3 - size))
    ensures Negative(c) <==> Meant(c) != 0 && (c / 0x80_0000) % 2 == 1
  {
    SmallExps();
    var w, e := c % 0x80_0000, if Size(c) <= 3 then 0 else Size(c) - 3;
    assert Word(c) * Exp(0) == Word(c);
    if Size(c) <= 3 {
      RoundedDown(w, Exp(3 - Size(c)));
    } else if Word(c) > 0 {
      MulPositive(Word(c), Exp(e));
    }
  }

  lemma RoundedDown(w: nat, p: nat)
    requires p > 0
    ensures (w / p) * p <= w < (w / p + 1) * p && (p == 1 ==> w / p == w)
  {
    assert w == (w / p) * p + w % p;
    assert (w / p + 1) * p == (w / p) * p + p;
  }

  lemma Below(w: nat, p: nat, q: nat)
    requires w < p && q > 0
    ensures w * q < p * q
  {
    MulLe(w + 1, p, q);
    assert (w + 1) * q == w * q + q;
  }

  lemma Threshold(w: nat, p: nat, q: nat)
    requires q > 0
    ensures w * q >= p * q <==> w >= p
  {
    if w < p {
      Below(w, p, q);
    } else {
      MulLe(p, w, q);
    }
  }

  // ----- encoding -----

  /** The number of bytes of a number. */
  function ByteLength(x: nat): nat {
    if x == 0 then 0 else 1 + ByteLength(x / 256)
  }

  lemma {:induction false} ByteLengthBounds(x: nat)
    ensures x < Exp(ByteLength(x)) && (x > 0 ==> Exp(ByteLength(x) - 1) <= x)
  {
    if x > 0 {
      ByteLengthBounds(x / 256);
      var n := ByteLength(x / 256);
      ExpAdd(1, n);
      SmallExps();
      if n > 0 {
        ExpAdd(1, n - 1);
      }
    }
  }

  lemma ByteLengthIs(x: nat, n: nat)
    requires n > 0 && Exp(n - 1) <= x < Exp(n)
    ensures ByteLength(x) == n
  {
    hide Exp;
    ByteLengthBounds(x);
    var b := ByteLength(x);
    if b < n {
      ExpMonotone(b, n - 1);
    } else if b > n {
      ExpMonotone(n, b - 1);
    }
  }

  /** The three leading bytes, shifted up when there are fewer. */
  function Leading(x: nat): nat {
    var n := ByteLength(x);
    if n <= 3 then MulNonNegative(x, Exp(3 - n)); x * Exp(3 - n) else x / Exp(n - 3)
  }

  /** A leading byte of 0x80 or more would read as a sign, so one byte fewer is kept. */
  predicate Bumped(x: nat) { Leading(x) >= 0x80_0000 }

  function EncodedWord(x: nat): nat { if Bumped(x) then Leading(x) / 256 else Leading(x) }

  function EncodedSize(x: nat): nat { ByteLength(x) + if Bumped(x) then 1 else 0 }

  function Encoded(x: nat, negative: bool): nat {
    EncodedWord(x) + EncodedSize(x) * 0x100_0000 + if negative && EncodedWord(x) != 0 then 0x80_0000 else 0
  }

  /** How many low bytes are dropped. */
  function Dropped(x: nat): nat { if EncodedSize(x) <= 3 then 0 else EncodedSize(x) - 3 }

  function Kept(x: nat): nat { x - x % Exp(Dropped(x)) }

  lemma LeadingBounds(x: nat)
    ensures Leading(x) < 0x100_0000 && (x > 0 ==> Leading(x) >= 0x1_0000)
  {
    hide Exp;
    ByteLengthBounds(x);
    SmallExps();
    var n := ByteLength(x);
    if n <= 3 {
      ExpAdd(n, 3 - n);
      Below(x, Exp(n), Exp(3 - n));
      if x > 0 {
        ExpAdd(n - 1, 3 - n);
        MulLe(Exp(n - 1), x, Exp(3 - n));
      }
    } else {
      ExpAdd(3, n - 3);
      ExpAdd(2, n - 3);
      DivBounds(x, Exp(3), Exp(2), Exp(n - 3));
    }
  }

  lemma DivBounds(x: nat, hi: nat, lo: nat, d: nat)
    requires d > 0 && lo * d <= x < hi * d
    ensures lo <= x / d < hi
  {
    var q := x / d;
    assert x == q * d + x % d;
    if q < lo {
      MulLe(q + 1, lo, d);
    }
    if q >= hi {
      MulLe(hi, q, d);
    }
  }

  /** Size, mantissa and sign can be read off an encoding. */
  lemma EncodedParts(x: nat, negative: bool)
    ensures Size(Encoded(x, negative)) == EncodedSize(x)
    ensures Encoded(x, negative) % 0x80_0000 == EncodedWord(x)
    ensures SignBit(Encoded(x, negative)) <==> negative && EncodedWord(x) != 0
  {
    hide EncodedWord, EncodedSize;
    EncodedWordBound(x);
    Packed(EncodedWord(x), EncodedSize(x), if negative && EncodedWord(x) != 0 then 1 else 0);
  }

  lemma Packed(word: nat, size: nat, sign: nat)
    requires word < 0x80_0000 && sign <= 1
    ensures
      var c := word + size * 0x100_0000 + sign * 0x80_0000;
      Size(c) == size && c % 0x80_0000 == word && (c / 0x80_0000) % 2 == sign
  {
    var c := word + size * 0x100_0000 + sign * 0x80_0000;
    DivUnique(size, word + sign * 0x80_0000, 0x100_0000, c);
    DivUnique(2 * size + sign, word, 0x80_0000, c);
  }

  lemma Unpacked(c: nat)
    ensures c == c % 0x80_0000 + Size(c) * 0x100_0000 + if SignBit(c) then 0x80_0000 else 0
  {
    var h := c / 0x80_0000;
    assert c == h * 0x80_0000 + c % 0x80_0000;
    DivUnique(h / 2, (h % 2) * 0x80_0000 + c % 0x80_0000, 0x100_0000, c);
  }

  lemma EncodedWordBound(x: nat)
    ensures EncodedWord(x) < 0x80_0000
    ensures x > 0 ==> EncodedWord(x) >= 0x8000
    ensures EncodedWord(x) == 0 <==> x == 0
  {
    hide Leading;
    LeadingBounds(x);
    if x == 0 {
      LeadingZero();
    }
  }

  lemma LeadingZero()
    ensures Leading(0) == 0
  {
  }

  /** The mantissa is the number without its dropped bytes, shifted up to three bytes when it is shorter. */
  lemma EncodedWordMeans(x: nat)
    ensures EncodedSize(x) > 3 ==> EncodedWord(x) == x / Exp(Dropped(x))
    ensures EncodedSize(x) <= 3 ==> EncodedWord(x) == x * Exp(3 - EncodedSize(x))
  {
    hide Exp;
    var n := ByteLength(x);
    SmallExps();
    if Bumped(x) {
      if n < 3 {
        ExpAdd(1, 2 - n);
        assert x * (256 * Exp(2 - n)) == 256 * (x * Exp(2 - n));
      } else if n == 3 {
        assert x * Exp(0) == x;
      } else {
        ExpAdd(n - 3, 1);
        DivDiv(x, Exp(n - 3));
      }
    } else {
      assert n == 3 ==> x * Exp(0) == x;
    }
  }

  lemma DivDiv(x: nat, p: nat)
    requires p > 0
    ensures (x / p) / 256 == x / (p * 256)
  {
    var q, r := x / p, x % p;
    assert x == q * p + r;
    var a, b := q / 256, q % 256;
    assert (256 * a + b) * p == a * (p * 256) + b * p;
    MulLe(b + 1, 256, p);
    assert (b + 1) * p == b * p + p;
    DivUnique(a, b * p + r, p * 256, x);
  }

  lemma SizeBound(x: nat)
    requires x < Limit()
    ensures ByteLength(x) <= 32 && EncodedSize(x) <= 33 && Encoded(x, true) < U32 && Encoded(x, false) < U32
  {
    hide Exp, Leading;
    ByteLengthBounds(x);
    if ByteLength(x) > 32 {
      ExpMonotone(32, ByteLength(x) - 1);
    }
    EncodedWordBound(x);
  }

  /** Decoding an encoding gives the number cut to its leading bytes, the sign asked for, and no overflow. */
  lemma DecodeEncoded(x: nat, negative: bool)
    requires x < Limit()
    ensures
      var c := Encoded(x, negative);
      Decoded(c) == Kept(x) && !Overflow(c) && (Negative(c) <==> negative && x != 0)
  {
    hide Exp, Encoded, EncodedWord, EncodedSize, Leading;
    var c := Encoded(x, negative);
    var size := EncodedSize(x);
    EncodedParts(x, negative);
    EncodedWordMeans(x);
    EncodedWordBound(x);
    SmallExps();
    if size <= 3 {
      ShiftBack(x, Exp(3 - size));
      assert Word(c) == x;
      assert x * Exp(0) == x && x % 1 == 0;
    } else {
      assert Word(c) == x / Exp(Dropped(x));
      assert Exp(Dropped(x)) * (x / Exp(Dropped(x))) + x % Exp(Dropped(x)) == x;
    }
    assert Meant(c) == Kept(x);
    OverflowIsExact(c);
    ModUnique(Meant(c), 0, Limit(), Meant(c));
    if x != 0 {
      NonZeroWord(x, c);
    }
  }

  lemma ShiftBack(x: nat, p: nat)
    requires p > 0
    ensures x * p >= 0 && (x * p) / p == x
  {
    DivUnique(x, 0, p, x * p);
  }

  lemma NonZeroWord(x: nat, c: nat)
    requires x > 0 && Word(c) == if EncodedSize(x) <= 3 then x else EncodedWord(x)
    ensures Word(c) != 0
  {
    EncodedWordBound(x);
  }

  /** What is lost is less than one unit of the last byte kept. */
  lemma KeptIsClose(x: nat)
    ensures Kept(x) <= x < Kept(x) + Exp(Dropped(x)) && Kept(x) % Exp(Dropped(x)) == 0
  {
    hide Exp, Dropped;
    WholePart(x, Exp(Dropped(x)));
  }

  /** Going through the compact form loses less than one part in 2^15. */
  lemma LossIsSmall(x: nat, negative: bool)
    requires 0 < x < Limit()
    ensures
      var back := Decoded(Encoded(x, negative));
      back <= x && (x - back) * 0x8000 < back
  {
    hide Exp, Encoded, EncodedWord, EncodedSize, Leading, Decoded, Dropped;
    DecodeEncoded(x, negative);
    KeptIsClose(x);
    EncodedWordBound(x);
    EncodedWordMeans(x);
    DroppedNothing(x);
    var d := Exp(Dropped(x));
    SmallExps();
    if EncodedSize(x) > 3 {
      MulLe(0x8000, x / d, d);
      WholeIs(x, d);
    }
  }

  lemma DroppedNothing(x: nat)
    ensures EncodedSize(x) <= 3 ==> Dropped(x) == 0
  {
  }

  lemma WholeIs(x: nat, d: nat)
    requires d > 0
    ensures (x / d) * d == x - x % d
  {
  }

  lemma WholePart(x: nat, d: nat)
    requires d > 0
    ensures 0 <= x - x % d <= x < x - x % d + d && (x - x % d) % d == 0
  {
    var q := x / d;
    assert x == q * d + x % d;
    DivUnique(q, 0, d, q * d);
  }

  // ----- which encodings come back -----

  /** No sign, a mantissa that uses its leading byte without looking negative, and nothing cut off below. */
  predicate Normal(c: nat) {
    c == 0 ||
    (&& !SignBit(c) && 0x8000 <= c % 0x80_0000 && Size(c) > 0
     && (Size(c) <= 3 ==> (c % 0x80_0000) % Exp(3 - Size(c)) == 0))
  }

  lemma EncodedIsNormal(x: nat)
    ensures Normal(Encoded(x, false))
  {
    hide Exp, EncodedWord, EncodedSize;
    EncodedParts(x, false);
    EncodedWordBound(x);
    EncodedWordMeans(x);
    if x == 0 {
      ZeroEncodes();
    } else {
      SizePositive(x);
      if EncodedSize(x) <= 3 {
        var p := Exp(3 - EncodedSize(x));
        DivUnique(x, 0, p, x * p);
      }
    }
  }

  lemma SizePositive(x: nat)
    requires x > 0
    ensures EncodedSize(x) > 0
  {
  }

  lemma ZeroEncodes()
    ensures Encoded(0, false) == 0
  {
    assert 0 * Exp(3) == 0;
  }

  /** A number that is a mantissa times a power of 256 is encoded by just these. */
  lemma EncodesAs(v: nat, w: nat, size: nat)
    requires 0x8000 <= w < 0x80_0000 && size > 0
    requires if size > 3 then v == w * Exp(size - 3) else w == v * Exp(3 - size)
    ensures EncodedSize(v) == size && EncodedWord(v) == w
  {
    hide Exp;
    SmallExps();
    var n := if w >= 0x1_0000 then size else size - 1;
    LengthOf(v, w, size);
    var lead := if w >= 0x1_0000 then w else w * 256;
    if n > 3 {
      if n == size {
        DivUnique(w, 0, Exp(size - 3), v);
      } else {
        ExpAdd(1, size - 4);
        assert w * (256 * Exp(size - 4)) == (w * 256) * Exp(size - 4);
        DivUnique(w * 256, 0, Exp(size - 4), v);
      }
    } else if n == size {
      assert Leading(v) == w;
    } else if size == 4 {
      assert v * Exp(0) == v;
    } else {
      ExpAdd(3 - size, 1);
      assert v * (Exp(3 - size) * 256) == (v * Exp(3 - size)) * 256;
    }
    assert Leading(v) == lead;
  }

  lemma LengthOf(v: nat, w: nat, size: nat)
    requires 0x8000 <= w < 0x80_0000 && size > 0
    requires if size > 3 then v == w * Exp(size - 3) else w == v * Exp(3 - size)
    ensures ByteLength(v) == if w >= 0x1_0000 then size else size - 1
    ensures size == 1 ==> w >= 0x1_0000
  {
    hide Exp;
    SmallExps();
    var n := if w >= 0x1_0000 then size else size - 1;
    var hi := if w >= 0x1_0000 then 3 else 2;
    if size > 3 {
      ExpAdd(hi, size - 3);
      ExpAdd(hi - 1, size - 3);
      Below(w, Exp(hi), Exp(size - 3));
      MulLe(Exp(hi - 1), w, Exp(size - 3));
      ByteLengthIs(v, n);
    } else {
      if n == 0 {
        if v > 0 { MulLe(1, v, Exp(2)); }
        assert false;
      }
      ExpAdd(n, 3 - size);
      ExpAdd(n - 1, 3 - size);
      Threshold(v, Exp(n), Exp(3 - size));
      Threshold(v, Exp(n - 1), Exp(3 - size));
      ByteLengthIs(v, n);
    }
  }

  lemma NormalComesBack(c: nat)
    requires Normal(c) && !Overflow(c)
    ensures Encoded(Decoded(c), false) == c
  {
    hide Exp, EncodedWord, EncodedSize, Overflow, Size, Meant, Word, SignBit;
    OverflowIsExact(c);
    ModUnique(Meant(c), 0, Limit(), Meant(c));
    if c == 0 {
      ZeroDecodes();
      ZeroEncodes();
    } else {
      NormalMeans(c);
      EncodesAs(Meant(c), c % 0x80_0000, Size(c));
      Unpacked(c);
    }
  }

  lemma NormalMeans(c: nat)
    requires Normal(c) && c != 0
    ensures
      var w, size := c % 0x80_0000, Size(c);
      if size > 3 then Meant(c) == w * Exp(size - 3) else w == Meant(c) * Exp(3 - size)
  {
    hide Exp, Size, SignBit;
    var w, size := c % 0x80_0000, Size(c);
    if size <= 3 {
      SmallExps();
      var p := Exp(3 - size);
      assert w == (w / p) * p + w % p;
      assert (w / p) * 1 == w / p;
    }
  }

  lemma ZeroDecodes()
    ensures Meant(0) == 0
  {
    DivUnique(0, 0, Exp(3), 0);
  }

  /** Exactly the normal compact forms that do not overflow survive decoding and encoding. */
  lemma ComesBackIffNormal(c: nat)
    ensures Encoded(Decoded(c), false) == c <==> Normal(c) && !Overflow(c)
  {
    hide *;
    if Normal(c) && !Overflow(c) {
      NormalComesBack(c);
    }
    EncodedIsNormal(Decoded(c));
    DecodedFits(c);
    DecodeEncoded(Decoded(c), false);
  }

  lemma DecodedFits(c: nat)
    ensures Decoded(c) < Limit()
  {
    hide Meant, Exp;
  }

  /** A compact form whose word is shifted away altogether comes back as zero. */
  lemma ShiftedAwayIsLost()
    ensures !Overflow(0x0100_3456) && Decoded(0x0100_3456) == 0 && Encoded(Decoded(0x0100_3456), false) == 0
  {
    SmallExps();
    hide Exp;
    DivUnique(0, 0x3456, 0x1_0000, 0x3456);
    assert Word(0x0100_3456) == 0;
    ZeroEncodes();
  }
}
