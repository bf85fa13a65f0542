/**
 Two wrong symbols in a Bech32 string, however far apart.  `src/bech32.cpp` accepts strings of up to 1023
 characters, which is as far as the checksum sees any two errors: multiplying by x takes a constant to a
 constant again only after 1023 steps.
 */
module Bech32Distance {
  import opened Bech32Checksum

  // ----- multiplying by x, and by a constant -----

  /** A step with the symbol 0, written out. */
  function Shift(c: bv32): bv32 {
    ((c & 0x1ffffff) << 5)
    ^ (if (c >> 25) & 1 != 0 then 0x3b6a57b2 else 0) ^ (if (c >> 25) & 2 != 0 then 0x26508e6d else 0)
    ^ (if (c >> 25) & 4 != 0 then 0x1ea119fa else 0) ^ (if (c >> 25) & 8 != 0 then 0x3d4233dd else 0)
    ^ (if (c >> 25) & 16 != 0 then 0x2a1462b3 else 0)
  }

  lemma XorFive(u: bv32, a: bool, b: bool, c: bool, d: bool, e: bool)
    ensures u ^ (if a then 0x3b6a57b2 else 0) ^ (if b then 0x26508e6d else 0) ^ (if c then 0x1ea119fa else 0)
            ^ (if d then 0x3d4233dd else 0) ^ (if e then 0x2a1462b3 else 0)
            == X(u, Wrap(a, b, c, d, e))
  {
  }

  lemma ShiftWith(u: bv32, t: bv32)
    ensures u ^ (if t & 1 != 0 then 0x3b6a57b2 else 0) ^ (if t & 2 != 0 then 0x26508e6d else 0)
            ^ (if t & 4 != 0 then 0x1ea119fa else 0) ^ (if t & 8 != 0 then 0x3d4233dd else 0)
            ^ (if t & 16 != 0 then 0x2a1462b3 else 0)
            == X(u, Wrap(t & 1 != 0, t & 2 != 0, t & 4 != 0, t & 8 != 0, t & 16 != 0))
  {
    hide X, Wrap;
    XorFive(u, t & 1 != 0, t & 2 != 0, t & 4 != 0, t & 8 != 0, t & 16 != 0);
  }

  lemma ReduceDef(t: bv32)
    ensures Reduce(t) == Wrap(t & 1 != 0, t & 2 != 0, t & 4 != 0, t & 8 != 0, t & 16 != 0)
  {
    hide Wrap;
  }

  lemma ShiftDef(c: bv32)
    ensures Shift(c) == X((c & 0x1ffffff) << 5, Reduce(c >> 25))
  {
    hide X, Wrap, Reduce;
    ReduceDef(c >> 25);
    ShiftWith((c & 0x1ffffff) << 5, c >> 25);
  }

  lemma UpTop(c: bv32)
    ensures Up(c) == (c & 0x1ffffff) << 5 && Top(c) == c >> 25
  {
  }

  lemma ShiftIsStep(c: bv32)
    ensures Shift(c) == Step(c, Widen(0)) == X(Up(c), Reduce(Top(c)))
  {
    hide X, Up, Top, Reduce, Shift, Widen;
    ZeroSymbol();
    ShiftDef(c);
    UpTop(c);
    XorLaws(Up(c));
  }

  lemma ZeroSymbol()
    ensures Widen(0) == 0
  {
  }

  function Shifts(c: bv32, n: nat): bv32 {
    if n == 0 then c else Shift(Shifts(c, n - 1))
  }

  /** The lower four bits of every symbol, moved up. */
  function LowBits(c: bv32): bv32 { (c & 0x1ef7bdef) << 1 }

  /** The top bit of every symbol, moved down. */
  function TopBits(c: bv32): bv32 { (c >> 4) & 0x2108421 }

  function TopBitsUp(c: bv32): bv32 { ((c >> 4) & 0x2108421) << 3 }

  /** Every one of six symbols doubled in the field: the fifth power of 2 is 9. */
  function Double(c: bv32): bv32 { X(X(LowBits(c), TopBits(c)), TopBitsUp(c)) }

  lemma LowBitsXor(c: bv32, d: bv32)
    ensures LowBits(X(c, d)) == X(LowBits(c), LowBits(d))
  {
  }

  lemma TopBitsXor(c: bv32, d: bv32)
    ensures TopBits(X(c, d)) == X(TopBits(c), TopBits(d))
  {
  }

  lemma TopBitsUpXor(c: bv32, d: bv32)
    ensures TopBitsUp(X(c, d)) == X(TopBitsUp(c), TopBitsUp(d))
  {
  }

  lemma DoubleXor(c: bv32, d: bv32)
    ensures Double(X(c, d)) == X(Double(c), Double(d))
  {
    hide X, LowBits, TopBits, TopBitsUp;
    LowBitsXor(c, d);
    TopBitsXor(c, d);
    TopBitsUpXor(c, d);
    Regroup2(LowBits(c), TopBits(c), LowBits(d), TopBits(d));
    Regroup2(X(LowBits(c), TopBits(c)), TopBitsUp(c), X(LowBits(d), TopBits(d)), TopBitsUp(d));
  }

  lemma DoubleUp(c: bv32)
    requires Small(c)
    ensures Up(Double(c)) == Double(Up(c))
  {
  }

  lemma DoubleFive(a: bv32, b: bv32, c: bv32, d: bv32, e: bv32)
    ensures Double(Five(a, b, c, d, e)) == Five(Double(a), Double(b), Double(c), Double(d), Double(e))
  {
    hide X, Double;
    DoubleXor(a, b);
    DoubleXor(X(a, b), c);
    DoubleXor(X(X(a, b), c), d);
    DoubleXor(X(X(X(a, b), c), d), e);
  }

  /** Each reduction word doubled is the next; the last is as the fifth power of 2. */
  lemma DoubleWords()
    ensures Double(0x3b6a57b2) == 0x26508e6d && Double(0x26508e6d) == 0x1ea119fa
    ensures Double(0x1ea119fa) == 0x3d4233dd && Double(0x3d4233dd) == 0x2a1462b3
    ensures Double(0x2a1462b3) == X(0x3b6a57b2, 0x3d4233dd) && Double(0) == 0
  {
  }

  lemma DoubleSelect(b: bool, k: bv32)
    ensures Double(Select(b, k)) == Select(b, Double(k))
  {
    hide Double;
    DoubleWords();
  }

  lemma SelectBoth(b: bool, k: bv32, l: bv32)
    ensures Select(b, X(k, l)) == X(Select(b, k), Select(b, l))
  {
    hide X;
    XorLaws(0);
  }

  lemma Rotate(a: bv32, b: bv32, c: bv32, d: bv32, p: bv32, q: bv32)
    ensures Five(a, b, c, d, X(p, q)) == Five(p, a, b, X(c, q), d)
  {
    hide X;
    var m := X(a, b);
    XorAssoc(p, a, b);
    XorBack(p, m);
    Regroup2(m, c, p, q);
    XorAssoc(X(m, c), X(p, q), d);
    XorBack(X(p, q), d);
    XorAssoc(X(m, c), d, X(p, q));
  }

  /** Doubling a symbol moves its bits up; the one that leaves comes back as 9. */
  lemma DoubleWrap(b0: bool, b1: bool, b2: bool, b3: bool, b4: bool)
    ensures Double(Wrap(b0, b1, b2, b3, b4)) == Wrap(b4, b0, b1, b2 != b4, b3)
  {
    hide X, Double, Select, Five;
    DoubleWords();
    DoubleFive(Select(b0, 0x3b6a57b2), Select(b1, 0x26508e6d), Select(b2, 0x1ea119fa), Select(b3, 0x3d4233dd),
               Select(b4, 0x2a1462b3));
    DoubleSelect(b0, 0x3b6a57b2);
    DoubleSelect(b1, 0x26508e6d);
    DoubleSelect(b2, 0x1ea119fa);
    DoubleSelect(b3, 0x3d4233dd);
    DoubleSelect(b4, 0x2a1462b3);
    SelectBoth(b4, 0x3b6a57b2, 0x3d4233dd);
    SelectXor(b2, b4, 0x3d4233dd);
    Rotate(Select(b0, 0x26508e6d), Select(b1, 0x1ea119fa), Select(b2, 0x3d4233dd), Select(b3, 0x2a1462b3),
           Select(b4, 0x3b6a57b2), Select(b4, 0x3d4233dd));
  }

  lemma TopOfDouble(c: bv32)
    ensures Has(Top(Double(c)), 1) == Has(Top(c), 16) && Has(Top(Double(c)), 2) == Has(Top(c), 1)
    ensures Has(Top(Double(c)), 4) == Has(Top(c), 2) && Has(Top(Double(c)), 16) == Has(Top(c), 8)
    ensures Has(Top(Double(c)), 8) == (Has(Top(c), 4) != Has(Top(c), 16))
  {
  }

  lemma DoubleReduce(c: bv32)
    ensures Reduce(Top(Double(c))) == Double(Reduce(Top(c)))
  {
    hide Double, Wrap, Has, Top;
    TopOfDouble(c);
    DoubleWrap(Has(Top(c), 1), Has(Top(c), 2), Has(Top(c), 4), Has(Top(c), 8), Has(Top(c), 16));
  }

  lemma DoubleShift(c: bv32)
    requires Small(c)
    ensures Shift(Double(c)) == Double(Shift(c))
  {
    hide X, Double, Up, Top, Reduce, Small, Shift, Step;
    ShiftIsStep(c);
    ShiftIsStep(Double(c));
    DoubleUp(c);
    DoubleReduce(c);
    DoubleXor(Up(c), Reduce(Top(c)));
  }

  lemma ShiftSmall(c: bv32)
    ensures Small(Shift(c))
  {
  }

  lemma DoubleConstant(c: bv32)
    ensures c < 32 ==> Double(c) < 32
  {
  }

  lemma {:induction false} DoubleShifts(c: bv32, n: nat)
    requires Small(c)
    ensures Shifts(Double(c), n) == Double(Shifts(c, n)) && Small(Shifts(c, n))
  {
    hide Shift, Double, Small;
    if n > 0 {
      DoubleShifts(c, n - 1);
      DoubleShift(Shifts(c, n - 1));
      ShiftSmall(Shifts(c, n - 1));
    }
  }

  lemma {:induction false} ShiftsAdd(c: bv32, m: nat, n: nat)
    ensures Shifts(c, m + n) == Shifts(Shifts(c, m), n)
    decreases n
  {
    hide Shift;
    if n > 0 {
      ShiftsAdd(c, m, n - 1);
    }
  }

  // ----- from any constant to 1 -----

  /** What is taken to a constant in `n` steps still is after doubling. */
  lemma PassOn(d: bv32, e: bv32, n: nat)
    requires Small(d) && e == Double(d)
    ensures Shifts(d, n) < 32 ==> Shifts(e, n) < 32
  {
    hide Shifts, Double, Small;
    DoubleShifts(d, n);
    DoubleConstant(Shifts(d, n));
  }

  /** Doubling goes through all constants but 0 and ends in 1, here from 12 on. */
  lemma LaterConstants(d: bv32, n: nat)
    requires d in {12, 24, 25, 27, 31, 23, 7, 14, 28, 17, 11, 22, 5, 10, 20}
    ensures Shifts(d, n) < 32 ==> Shifts(1, n) < 32
  {
    hide Shifts;
    PassOn(12, 24, n);
    PassOn(24, 25, n);
    PassOn(25, 27, n);
    PassOn(27, 31, n);
    PassOn(31, 23, n);
    PassOn(23, 7, n);
    PassOn(7, 14, n);
    PassOn(14, 28, n);
    PassOn(28, 17, n);
    PassOn(17, 11, n);
    PassOn(11, 22, n);
    PassOn(22, 5, n);
    PassOn(5, 10, n);
    PassOn(10, 20, n);
    PassOn(20, 1, n);
  }

  lemma EarlierConstants(d: bv32, n: nat)
    requires d in {2, 4, 8, 16, 9, 18, 13, 26, 29, 19, 15, 30, 21, 3, 6}
    ensures Shifts(d, n) < 32 ==> Shifts(1, n) < 32
  {
    hide Shifts;
    PassOn(2, 4, n);
    PassOn(4, 8, n);
    PassOn(8, 16, n);
    PassOn(16, 9, n);
    PassOn(9, 18, n);
    PassOn(18, 13, n);
    PassOn(13, 26, n);
    PassOn(26, 29, n);
    PassOn(29, 19, n);
    PassOn(19, 15, n);
    PassOn(15, 30, n);
    PassOn(30, 21, n);
    PassOn(21, 3, n);
    PassOn(3, 6, n);
    PassOn(6, 12, n);
    LaterConstants(12, n);
  }

  lemma ConstantFromOne(d: bv32, n: nat)
    requires 0 < d < 32
    ensures Shifts(d, n) < 32 ==> Shifts(1, n) < 32
  {
    hide Shifts;
    if d in {2, 4, 8, 16, 9, 18, 13, 26, 29, 19, 15, 30, 21, 3, 6} {
      EarlierConstants(d, n);
    } else if d != 1 {
      LaterConstants(d, n);
    }
  }

  // ----- 1022 steps away from the constants -----

  /** None of the first `n` multiples by x is a constant. */
  ghost predicate Away(c: bv32, n: nat) {
    forall k | 1 <= k <= n :: Shifts(c, k) >= 32
  }

  /** Seven steps at once. */
  function Seven(c: bv32): bv32 { Shift(Shift(Shift(Shift(Shift(Shift(Shift(c))))))) }

  /** Seven steps that meet no constant. */
  predicate Clear(c: bv32) {
    var c2 := Shift(Shift(c));
    var c4 := Shift(Shift(c2));
    var c6 := Shift(Shift(c4));
    && Shift(c) >= 32 && c2 >= 32 && Shift(c2) >= 32 && c4 >= 32 && Shift(c4) >= 32 && c6 >= 32 && Shift(c6) >= 32
  }

  /** Fourteen steps that meet no constant lead from `c` to `d`. */
  predicate Leap(c: bv32, d: bv32) {
    Clear(c) && Clear(Seven(c)) && Seven(Seven(c)) == d
  }

  lemma SevenShifts(c: bv32)
    ensures Shifts(c, 7) == Seven(c)
    ensures Clear(c) ==> Away(c, 7)
  {
    hide Shift;
    assert Shifts(c, 1) == Shift(c) && Shifts(c, 2) == Shift(Shifts(c, 1)) && Shifts(c, 3) == Shift(Shifts(c, 2));
    assert Shifts(c, 4) == Shift(Shifts(c, 3)) && Shifts(c, 5) == Shift(Shifts(c, 4));
    assert Shifts(c, 6) == Shift(Shifts(c, 5)) && Shifts(c, 7) == Shift(Shifts(c, 6));
  }

  lemma AwayJoin(c: bv32, m: nat, n: nat)
    requires Away(c, m) && Away(Shifts(c, m), n)
    ensures Away(c, m + n)
  {
    hide Shifts;
    forall k | 1 <= k <= m + n ensures Shifts(c, k) >= 32 {
      if k > m {
        ShiftsAdd(c, m, k - m);
      }
    }
  }

  /** Goes on from the power of x reached after `n` steps. */
  lemma LeapOn(n: nat, c: bv32, d: bv32)
    requires Away(1, n) && Shifts(1, n) == c && Leap(c, d)
    ensures Away(1, n + 14) && Shifts(1, n + 14) == d
  {
    hide Shifts, Clear, Seven, Away;
    SevenShifts(c);
    SevenShifts(Seven(c));
    ShiftsAdd(c, 7, 7);
    AwayJoin(c, 7, 7);
    ShiftsAdd(1, n, 14);
    AwayJoin(1, n, 14);
  }

  lemma LeapsTo112()
    ensures Away(1, 112) && Shifts(1, 112) == 0x0c7d65cf
  {
    hide Shifts, Away;
    NoLeap();
    LeapOn(0, 0x00000001, 0x0c95be66);
    LeapOn(14, 0x0c95be66, 0x324d54e0);
    LeapOn(28, 0x324d54e0, 0x2a2673e5);
    LeapOn(42, 0x2a2673e5, 0x2b524659);
    LeapOn(56, 0x2b524659, 0x1fbfd2ef);
    LeapOn(70, 0x1fbfd2ef, 0x3def8c4c);
    LeapOn(84, 0x3def8c4c, 0x10a2062c);
    LeapOn(98, 0x10a2062c, 0x0c7d65cf);
  }

  lemma LeapsTo224()
    requires Away(1, 112) && Shifts(1, 112) == 0x0c7d65cf
    ensures Away(1, 224) && Shifts(1, 224) == 0x200e1cc0
  {
    hide Shifts, Away;
    LeapOn(112, 0x0c7d65cf, 0x13150b97);
    LeapOn(126, 0x13150b97, 0x3feb7e7a);
    LeapOn(140, 0x3feb7e7a, 0x2d13170b);
    LeapOn(154, 0x2d13170b, 0x0615682b);
    LeapOn(168, 0x0615682b, 0x12ff9643);
    LeapOn(182, 0x12ff9643, 0x157eb3d6);
    LeapOn(196, 0x157eb3d6, 0x0dd5e077);
    LeapOn(210, 0x0dd5e077, 0x200e1cc0);
  }

  lemma LeapsTo336()
    requires Away(1, 224) && Shifts(1, 224) == 0x200e1cc0
    ensures Away(1, 336) && Shifts(1, 336) == 0x3e5e542e
  {
    hide Shifts, Away;
    LeapOn(224, 0x200e1cc0, 0x32ea39df);
    LeapOn(238, 0x32ea39df, 0x106326d1);
    LeapOn(252, 0x106326d1, 0x2d9614b2);
    LeapOn(266, 0x2d9614b2, 0x38a8a7e8);
    LeapOn(280, 0x38a8a7e8, 0x1791ec55);
    LeapOn(294, 0x1791ec55, 0x28bd9af9);
    LeapOn(308, 0x28bd9af9, 0x07f5d33a);
    LeapOn(322, 0x07f5d33a, 0x3e5e542e);
  }

  lemma LeapsTo448()
    requires Away(1, 336) && Shifts(1, 336) == 0x3e5e542e
    ensures Away(1, 448) && Shifts(1, 448) == 0x31a13854
  {
    hide Shifts, Away;
    LeapOn(336, 0x3e5e542e, 0x38ab71fc);
    LeapOn(350, 0x38ab71fc, 0x125ed92a);
    LeapOn(364, 0x125ed92a, 0x25ee5035);
    LeapOn(378, 0x25ee5035, 0x049dc001);
    LeapOn(392, 0x049dc001, 0x22040291);
    LeapOn(406, 0x22040291, 0x1bf9517d);
    LeapOn(420, 0x1bf9517d, 0x36c43269);
    LeapOn(434, 0x36c43269, 0x31a13854);
  }

  lemma LeapsTo560()
    requires Away(1, 448) && Shifts(1, 448) == 0x31a13854
    ensures Away(1, 560) && Shifts(1, 560) == 0x368c94ae
  {
    hide Shifts, Away;
    LeapOn(448, 0x31a13854, 0x0367386c);
    LeapOn(462, 0x0367386c, 0x1922fda6);
    LeapOn(476, 0x1922fda6, 0x3537eefd);
    LeapOn(490, 0x3537eefd, 0x02b6e14c);
    LeapOn(504, 0x02b6e14c, 0x0d29a113);
    LeapOn(518, 0x0d29a113, 0x208fd05a);
    LeapOn(532, 0x208fd05a, 0x00d103b7);
    LeapOn(546, 0x00d103b7, 0x368c94ae);
  }

  lemma LeapsTo672()
    requires Away(1, 560) && Shifts(1, 560) == 0x368c94ae
    ensures Away(1, 672) && Shifts(1, 672) == 0x1e823cfa
  {
    hide Shifts, Away;
    LeapOn(560, 0x368c94ae, 0x32e3ecc4);
    LeapOn(574, 0x32e3ecc4, 0x1d4654b3);
    LeapOn(588, 0x1d4654b3, 0x03c3991c);
    LeapOn(602, 0x03c3991c, 0x15162bbb);
    LeapOn(616, 0x15162bbb, 0x07e43df8);
    LeapOn(630, 0x07e43df8, 0x26412e74);
    LeapOn(644, 0x26412e74, 0x23d7c920);
    LeapOn(658, 0x23d7c920, 0x1e823cfa);
  }

  lemma LeapsTo784()
    requires Away(1, 672) && Shifts(1, 672) == 0x1e823cfa
    ensures Away(1, 784) && Shifts(1, 784) == 0x27961ba6
  {
    hide Shifts, Away;
    LeapOn(672, 0x1e823cfa, 0x1b88ce06);
    LeapOn(686, 0x1b88ce06, 0x39e3d05f);
    LeapOn(700, 0x39e3d05f, 0x37782db0);
    LeapOn(714, 0x37782db0, 0x075e94b6);
    LeapOn(728, 0x075e94b6, 0x28661a09);
    LeapOn(742, 0x28661a09, 0x33080328);
    LeapOn(756, 0x33080328, 0x1caa0792);
    LeapOn(770, 0x1caa0792, 0x27961ba6);
  }

  lemma LeapsTo896()
    requires Away(1, 784) && Shifts(1, 784) == 0x27961ba6
    ensures Away(1, 896) && Shifts(1, 896) == 0x3dc624dc
  {
    hide Shifts, Away;
    LeapOn(784, 0x27961ba6, 0x1d0658a7);
    LeapOn(798, 0x1d0658a7, 0x23f0e55e);
    LeapOn(812, 0x23f0e55e, 0x0fcaaf37);
    LeapOn(826, 0x0fcaaf37, 0x100361c8);
    LeapOn(840, 0x100361c8, 0x02e273dd);
    LeapOn(854, 0x02e273dd, 0x3efe11b9);
    LeapOn(868, 0x3efe11b9, 0x161856ee);
    LeapOn(882, 0x161856ee, 0x3dc624dc);
  }

  lemma LeapsTo1008()
    requires Away(1, 896) && Shifts(1, 896) == 0x3dc624dc
    ensures Away(1, 1008) && Shifts(1, 1008) == 0x1bdc2631
  {
    hide Shifts, Away;
    LeapOn(896, 0x3dc624dc, 0x29336503);
    LeapOn(910, 0x29336503, 0x09404d49);
    LeapOn(924, 0x09404d49, 0x207828bb);
    LeapOn(938, 0x207828bb, 0x2bd41add);
    LeapOn(952, 0x2bd41add, 0x1a2c25a7);
    LeapOn(966, 0x1a2c25a7, 0x1ef3b722);
    LeapOn(980, 0x1ef3b722, 0x382b86cf);
    LeapOn(994, 0x382b86cf, 0x1bdc2631);
  }

  lemma LeapsTo1022()
    requires Away(1, 1008) && Shifts(1, 1008) == 0x1bdc2631
    ensures Away(1, 1022) && Shifts(1, 1022) == 0x228bf1a8
  {
    hide Shifts, Away;
    LeapOn(1008, 0x1bdc2631, 0x228bf1a8);
  }

  lemma NoLeap()
    ensures Away(1, 0) && Shifts(1, 0) == 1
  {
  }

  /** No power of x below the 1023rd is a constant. */
  lemma PowersStayAway()
    ensures Away(1, 1022) && Shifts(1, 1022) == 0x228bf1a8
  {
    hide *;
    LeapsTo112();
    LeapsTo224();
    LeapsTo336();
    LeapsTo448();
    LeapsTo560();
    LeapsTo672();
    LeapsTo784();
    LeapsTo896();
    LeapsTo1008();
    LeapsTo1022();
  }

  /** The 1023rd is 1 again, so two equal errors at that distance would cancel out. */
  lemma ComesBackAt1023()
    ensures Shifts(1, 1023) == 1
  {
    PowersStayAway();
    hide Shifts, Away;
    OneMoreShift(1, 1022);
  }

  /** And no constant comes back to a constant before 1023 steps. */
  lemma ConstantsStayAway(d: bv32, n: nat)
    requires 0 < d < 32 && 1 <= n <= 1022
    ensures Shifts(d, n) >= 32
  {
    hide Shifts;
    PowersStayAway();
    ConstantFromOne(d, n);
  }

  // ----- two errors -----

  lemma {:induction false} PolyOfZeros(c: bv32, n: nat)
    ensures PolyFrom(c, Zeros(n)) == Shifts(c, n)
    decreases n
  {
    hide Shift, Step, Widen;
    if n > 0 {
      assert Zeros(n)[1..] == Zeros(n - 1);
      ShiftIsStep(c);
      PolyOfZeros(Shift(c), n - 1);
      ShiftsAdd(c, 1, n - 1);
      assert Shifts(c, 1) == Shift(c);
    }
  }

  lemma FirstStep(d: bv8)
    requires d < 32
    ensures Step(0, Widen(d)) == Widen(d) && Widen(d) < 32 && (d != 0 ==> Widen(d) != 0)
  {
  }

  lemma StepAfterShift(c: bv32, e: bv8)
    requires e < 32 && Shift(c) >= 32
    ensures Step(c, Widen(e)) != 0 && Small(Step(c, Widen(e)))
  {
    hide X, Step, Shift, Widen, Small;
    StepSmall(c, e);
    ZeroSymbol();
    ShiftIsStep(c);
    FirstStep(e);
    StepXor(c, 0, 0, Widen(e));
    XorLaws(c);
    XorLaws(Widen(e));
    NotSame(Shift(c), Widen(e));
  }

  lemma NotSame(a: bv32, b: bv32)
    requires a >= 32 && b < 32
    ensures X(a, b) != 0
  {
  }

  /** Two symbols that are not zero, up to 1022 places apart, leave a remainder that is not zero. */
  lemma TwoShow(before: nat, d: bv8, between: nat, e: bv8, after: nat)
    requires 0 < d < 32 && 0 < e < 32 && between < 1022
    ensures PolyFrom(0, Zeros(before) + ([d] + (Zeros(between) + ([e] + Zeros(after))))) != 0
  {
    hide Step, Widen, Small, Shift, Shifts, PolyFrom;
    PolyConcat(0, Zeros(before), [d] + (Zeros(between) + ([e] + Zeros(after))));
    ZerosStayZero(before);
    FirstStep(d);
    PolyCons(0, d, Zeros(between) + ([e] + Zeros(after)));
    PolyConcat(Widen(d), Zeros(between), [e] + Zeros(after));
    PolyOfZeros(Widen(d), between);
    var c := Shifts(Widen(d), between);
    PolyCons(c, e, Zeros(after));
    ConstantsStayAway(Widen(d), between + 1);
    OneMoreShift(Widen(d), between);
    StepAfterShift(c, e);
    NonZeroStays(Step(c, Widen(e)), after);
  }

  lemma OneMoreShift(c: bv32, n: nat)
    ensures Shifts(c, n + 1) == Shift(Shifts(c, n))
  {
  }

  lemma PolyCons(c: bv32, d: bv8, v: seq<bv8>)
    ensures PolyFrom(c, [d] + v) == PolyFrom(Step(c, Widen(d)), v)
  {
    hide Step, Widen;
    assert ([d] + v)[1..] == v;
  }

  /** Lists that differ in two symbols, up to 1022 places apart, have different checksums. */
  lemma TwoDetected(v: seq<bv8>, w: seq<bv8>, i: nat, j: nat)
    requires |v| == |w| && i < j < |v| && j - i <= 1022
    requires forall m | 0 <= m < |v| && m != i && m != j :: v[m] == w[m]
    requires v[i] != w[i] && v[j] != w[j] && v[i] < 32 && w[i] < 32 && v[j] < 32 && w[j] < 32
    ensures PolyMod(v) != PolyMod(w)
  {
    hide X, X8, PolyFrom;
    var e := Xor(v, w);
    forall m | 0 <= m < |v| ensures e[m] == 0 <==> v[m] == w[m] {
      XorTwice(v[m], w[m]);
    }
    XorTwice(v[i], w[i]);
    XorTwice(v[j], w[j]);
    assert e == Zeros(i) + ([e[i]] + (Zeros(j - i - 1) + ([e[j]] + Zeros(|v| - j - 1))));
    TwoShow(i, e[i], j - i - 1, e[j], |v| - j - 1);
    XorDifference(v, w);
    PolyXor(1, 0, v, e);
    XorLaws(1);
    XorUnchanged(PolyFrom(1, v), PolyFrom(0, e));
  }
}
