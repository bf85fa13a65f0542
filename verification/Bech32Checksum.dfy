/**
 The checksum of Bech32, `src/bech32.cpp` (section "Bech32" of BIP 173).  It is linear over exclusive or, so six
 symbols can always be chosen, in exactly one way, to make a list of symbols valid, and no single symbol can be
 changed unnoticed.
 */
module Bech32Checksum {

  // ----- the operations on words, each used below through its laws only -----

  function X(a: bv32, b: bv32): bv32 { a ^ b }

  function X8(a: bv8, b: bv8): bv8 { a ^ b }

  function Widen(a: bv8): bv32 { a as bv32 }

  predicate Has(a: bv32, m: bv32) { a & m != 0 }

  /** The lower 25 bits, moved up by one symbol. */
  function Up(c: bv32): bv32 { (c & 0x1ffffff) << 5 }

  /** The symbol at the top. */
  function Top(c: bv32): bv32 { c >> 25 }

  lemma XorLaws(a: bv32)
    ensures X(a, a) == 0 && X(0, a) == a && X(a, 0) == a
  {
  }

  lemma XorBack(a: bv32, b: bv32)
    ensures X(X(a, b), b) == a && X(a, b) == X(b, a)
  {
  }

  lemma HasXor(a: bv32, b: bv32)
    ensures Has(X(a, b), 1) == (Has(a, 1) != Has(b, 1)) && Has(X(a, b), 2) == (Has(a, 2) != Has(b, 2))
    ensures Has(X(a, b), 4) == (Has(a, 4) != Has(b, 4)) && Has(X(a, b), 8) == (Has(a, 8) != Has(b, 8))
    ensures Has(X(a, b), 16) == (Has(a, 16) != Has(b, 16))
  {
    hide X, Has;
    BitsOfXor(a, b);
    HasXorAt(a, b, 1);
    HasXorAt(a, b, 2);
    HasXorAt(a, b, 4);
    HasXorAt(a, b, 8);
    HasXorAt(a, b, 16);
  }

  lemma HasXorAt(a: bv32, b: bv32, m: bv32)
    requires ((a ^ b) & m != 0) == ((a & m != 0) != (b & m != 0))
    ensures Has(X(a, b), m) == (Has(a, m) != Has(b, m))
  {
    hide X, Has;
    XDef(a, b);
    HasDef(a ^ b, m);
    HasDef(a, m);
    HasDef(b, m);
  }

  lemma XDef(a: bv32, b: bv32)
    ensures X(a, b) == a ^ b
  {
  }

  lemma HasDef(a: bv32, m: bv32)
    ensures Has(a, m) == (a & m != 0)
  {
  }

  lemma BitsOfXor(x: bv32, y: bv32)
    ensures ((x ^ y) & 1 != 0) == ((x & 1 != 0) != (y & 1 != 0))
    ensures ((x ^ y) & 2 != 0) == ((x & 2 != 0) != (y & 2 != 0))
    ensures ((x ^ y) & 4 != 0) == ((x & 4 != 0) != (y & 4 != 0))
    ensures ((x ^ y) & 8 != 0) == ((x & 8 != 0) != (y & 8 != 0))
    ensures ((x ^ y) & 16 != 0) == ((x & 16 != 0) != (y & 16 != 0))
  {
  }

  lemma UpXor(c: bv32, d: bv32)
    ensures Up(X(c, d)) == X(Up(c), Up(d)) && Top(X(c, d)) == X(Top(c), Top(d))
  {
  }

  lemma WidenXor(a: bv8, b: bv8)
    ensures Widen(X8(a, b)) == X(Widen(a), Widen(b)) && Widen(0) == 0
  {
  }

  lemma Regroup2(a: bv32, b: bv32, p: bv32, q: bv32)
    ensures X(X(a, p), X(b, q)) == X(X(a, b), X(p, q))
  {
    hide X;
    XorAssoc(a, p, X(b, q));
    XorAssoc(p, b, q);
    XorBack(p, b);
    XorAssoc(b, p, q);
    XorAssoc(a, b, X(p, q));
  }

  lemma XorAssoc(a: bv32, b: bv32, c: bv32)
    ensures X(X(a, b), c) == X(a, X(b, c))
  {
  }

  // ----- one symbol -----

  function Select(b: bool, k: bv32): bv32 { if b then k else 0 }

  lemma SelectXor(a: bool, b: bool, k: bv32)
    ensures Select(a != b, k) == X(Select(a, k), Select(b, k))
  {
    hide X;
    XorLaws(k);
    XorLaws(0);
  }

  /** What the symbol shifted out at the top is replaced by: its product with x^6 modulo the generator. */
  function Reduce(c0: bv32): bv32 { Wrap(Has(c0, 1), Has(c0, 2), Has(c0, 4), Has(c0, 8), Has(c0, 16)) }

  /** The same for a symbol given by its bits. */
  function Wrap(b0: bool, b1: bool, b2: bool, b3: bool, b4: bool): bv32 {
    Five(Select(b0, 0x3b6a57b2), Select(b1, 0x26508e6d), Select(b2, 0x1ea119fa), Select(b3, 0x3d4233dd),
         Select(b4, 0x2a1462b3))
  }

  function Five(a: bv32, b: bv32, c: bv32, d: bv32, e: bv32): bv32 { X(X(X(X(a, b), c), d), e) }

  function Step(c: bv32, v: bv32): bv32 { X(X(Up(c), v), Reduce(Top(c))) }

  lemma ReduceXor(x: bv32, y: bv32)
    ensures Reduce(X(x, y)) == X(Reduce(x), Reduce(y))
  {
    hide X, Has, Wrap;
    HasXor(x, y);
    WrapXor(Has(x, 1), Has(x, 2), Has(x, 4), Has(x, 8), Has(x, 16),
            Has(y, 1), Has(y, 2), Has(y, 4), Has(y, 8), Has(y, 16));
  }

  lemma WrapXor(
    a: bool, b: bool, c: bool, d: bool, e: bool, p: bool, q: bool, r: bool, s: bool, t: bool)
    ensures Wrap(a != p, b != q, c != r, d != s, e != t) == X(Wrap(a, b, c, d, e), Wrap(p, q, r, s, t))
  {
    hide X, Select, Five;
    SelectXor(a, p, 0x3b6a57b2);
    SelectXor(b, q, 0x26508e6d);
    SelectXor(c, r, 0x1ea119fa);
    SelectXor(d, s, 0x3d4233dd);
    SelectXor(e, t, 0x2a1462b3);
    FiveXor(Select(a, 0x3b6a57b2), Select(b, 0x26508e6d), Select(c, 0x1ea119fa), Select(d, 0x3d4233dd),
            Select(e, 0x2a1462b3), Select(p, 0x3b6a57b2), Select(q, 0x26508e6d), Select(r, 0x1ea119fa),
            Select(s, 0x3d4233dd), Select(t, 0x2a1462b3));
  }

  lemma FiveXor(
    a: bv32, b: bv32, c: bv32, d: bv32, e: bv32, p: bv32, q: bv32, r: bv32, s: bv32, t: bv32)
    ensures Five(X(a, p), X(b, q), X(c, r), X(d, s), X(e, t)) == X(Five(a, b, c, d, e), Five(p, q, r, s, t))
  {
    hide X;
    Regroup2(a, b, p, q);
    Regroup2(X(a, b), c, X(p, q), r);
    Regroup2(X(X(a, b), c), d, X(X(p, q), r), s);
    Regroup2(X(X(X(a, b), c), d), e, X(X(X(p, q), r), s), t);
  }

  /** Adding the five multiples one after another is adding their sum. */
  lemma AddInTurn(u: bv32, a: bv32, b: bv32, c: bv32, d: bv32, e: bv32)
    ensures X(X(X(X(X(u, a), b), c), d), e) == X(u, X(X(X(X(a, b), c), d), e))
  {
    hide X;
    XorAssoc(u, a, b);
    XorAssoc(u, X(a, b), c);
    XorAssoc(u, X(X(a, b), c), d);
    XorAssoc(u, X(X(X(a, b), c), d), e);
  }

  lemma StepXor(c: bv32, d: bv32, v: bv32, w: bv32)
    ensures Step(X(c, d), X(v, w)) == X(Step(c, v), Step(d, w))
  {
    hide X, Reduce, Up, Top;
    UpXor(c, d);
    ReduceXor(Top(c), Top(d));
    Regroup2(Up(c), v, Up(d), w);
    Regroup2(X(Up(c), v), Reduce(Top(c)), X(Up(d), w), Reduce(Top(d)));
  }

  lemma StepBound(c: bv32, v: bv8)
    ensures Step(c, Widen(v)) < 0x4000_0000
  {
  }

  /** Below the top symbol nothing is reduced. */
  lemma StepNoCarry(c: bv32, v: bv32)
    requires c < 0x200_0000
    ensures Step(c, v) == (c << 5) ^ v
  {
  }

  /** Multiplying by x loses nothing: the generator has a constant term. */
  lemma StepKeepsNonZero(c: bv32)
    requires 0 != c < 0x4000_0000
    ensures Step(c, 0) != 0
  {
  }

  // ----- lists of symbols -----

  function PolyFrom(c: bv32, v: seq<bv8>): bv32
    decreases |v|
  {
    if v == [] then c else PolyFrom(Step(c, Widen(v[0])), v[1..])
  }

  function PolyMod(v: seq<bv8>): bv32 { PolyFrom(1, v) }

  function Xor(v: seq<bv8>, w: seq<bv8>): (x: seq<bv8>)
    requires |v| == |w|
    ensures |x| == |v|
  {
    seq(|v|, i requires 0 <= i < |v| => X8(v[i], w[i]))
  }

  lemma XorTail(v: seq<bv8>, w: seq<bv8>)
    requires |v| == |w| > 0
    ensures Xor(v, w)[0] == X8(v[0], w[0]) && Xor(v, w)[1..] == Xor(v[1..], w[1..])
  {
    hide X8;
  }

  /** The checksum of an exclusive or is the exclusive or of the checksums. */
  lemma {:induction false} PolyXor(c: bv32, d: bv32, v: seq<bv8>, w: seq<bv8>)
    requires |v| == |w|
    ensures PolyFrom(X(c, d), Xor(v, w)) == X(PolyFrom(c, v), PolyFrom(d, w))
    decreases |v|
  {
    hide X, X8, Step, Widen, Xor;
    if v != [] {
      XorTail(v, w);
      StepXor(c, d, Widen(v[0]), Widen(w[0]));
      WidenXor(v[0], w[0]);
      PolyXor(Step(c, Widen(v[0])), Step(d, Widen(w[0])), v[1..], w[1..]);
    }
  }

  lemma {:induction false} PolyConcat(c: bv32, v: seq<bv8>, w: seq<bv8>)
    ensures PolyFrom(c, v + w) == PolyFrom(PolyFrom(c, v), w)
    decreases |v|
  {
    hide Step, Widen;
    if v == [] {
      assert v + w == w;
    } else {
      assert (v + w)[1..] == v[1..] + w;
      PolyConcat(Step(c, Widen(v[0])), v[1..], w);
    }
  }

  lemma PolyEmpty(c: bv32)
    ensures PolyFrom(c, []) == c
  {
  }

  predicate Small(c: bv32) { c < 0x4000_0000 }

  lemma StepSmall(c: bv32, v: bv8)
    ensures Small(Step(c, Widen(v)))
  {
    hide Step, Widen;
    StepBound(c, v);
  }

  lemma {:induction false} PolySmall(c: bv32, v: seq<bv8>)
    requires Small(c)
    ensures Small(PolyFrom(c, v))
    decreases |v|
  {
    hide Step, Widen, Small;
    if v != [] {
      StepSmall(c, v[0]);
      PolySmall(Step(c, Widen(v[0])), v[1..]);
    }
  }

  // ----- six symbols as one number -----

  predicate Symbols(v: seq<bv8>) { forall i | 0 <= i < |v| :: v[i] < 32 }

  function Zeros(n: nat): seq<bv8> { seq(n, _ => 0) }

  /** A symbol appended below. */
  function Push(c: bv32, v: bv32): bv32 { (c << 5) ^ v }

  function PackFrom(c: bv32, v: seq<bv8>): bv32
    decreases |v|
  {
    if v == [] then c else PackFrom(Push(c, Widen(v[0])), v[1..])
  }

  /** There is room for `n` more symbols. */
  predicate Room(c: bv32, n: nat) {
    if n == 0 then c < 0x4000_0000 else if n == 1 then c < 0x200_0000 else if n == 2 then c < 0x10_0000
    else if n == 3 then c < 0x8000 else if n == 4 then c < 0x400 else if n == 5 then c < 0x20 else c == 0
  }

  lemma PushRoom(c: bv32, v: bv8, n: nat)
    requires 0 < n <= 6 && Room(c, n) && v < 32
    ensures Room(Push(c, Widen(v)), n - 1) && Step(c, Widen(v)) == Push(c, Widen(v))
    ensures c < 0x200_0000
  {
    hide *;
    RoomBound(c, n);
    StepIsPush(c, Widen(v));
    PushFits(c, v, n);
  }

  lemma StepIsPush(c: bv32, v: bv32)
    requires c < 0x200_0000
    ensures Step(c, v) == Push(c, v)
  {
    hide Step;
    StepNoCarry(c, v);
  }

  lemma PushFits(c: bv32, v: bv8, n: nat)
    requires 0 < n <= 6 && Room(c, n) && v < 32
    ensures Room(Push(c, Widen(v)), n - 1)
  {
    hide Push, Widen;
    WidenSmall(v);
    PushDef(c, Widen(v));
    RoomBits(c, Widen(v));
  }

  lemma PushDef(c: bv32, v: bv32)
    ensures Push(c, v) == (c << 5) ^ v
  {
  }

  lemma WidenSmall(v: bv8)
    requires v < 32
    ensures Widen(v) < 32
  {
  }

  lemma RoomBits(c: bv32, v: bv32)
    requires v < 32
    ensures c == 0 ==> (c << 5) ^ v < 0x20
    ensures c < 0x20 ==> (c << 5) ^ v < 0x400
    ensures c < 0x400 ==> (c << 5) ^ v < 0x8000
    ensures c < 0x8000 ==> (c << 5) ^ v < 0x10_0000
    ensures c < 0x10_0000 ==> (c << 5) ^ v < 0x200_0000
    ensures c < 0x200_0000 ==> (c << 5) ^ v < 0x4000_0000
  {
  }

  lemma PushBack(c: bv32, v: bv8)
    requires c < 0x200_0000 && v < 32
    ensures Push(c, Widen(v)) >> 5 == c && (Push(c, Widen(v)) & 31) as bv8 == v
  {
  }

  lemma RoomBound(c: bv32, n: nat)
    requires 0 < n && Room(c, n)
    ensures c < 0x200_0000
  {
  }

  /** The symbols back out of a number. */
  function UnpackTo(m: bv32, n: nat): seq<bv8> {
    if n == 0 then [] else UnpackTo(m >> 5, n - 1) + [(m & 31) as bv8]
  }

  /** While there is room the checksum only lines symbols up, and they can be read back. */
  lemma {:induction false} LineUp(c: bv32, v: seq<bv8>)
    requires |v| <= 6 && Room(c, |v|) && Symbols(v)
    ensures PolyFrom(c, v) == PackFrom(c, v)
    decreases |v|
  {
    hide Step, Push, Room, Widen;
    if v != [] {
      PushRoom(c, v[0], |v|);
      LineUp(Push(c, Widen(v[0])), v[1..]);
    }
  }

  lemma {:induction false} PackLast(c: bv32, v: seq<bv8>)
    requires v != []
    ensures PackFrom(c, v) == Push(PackFrom(c, v[..|v| - 1]), Widen(v[|v| - 1]))
    decreases |v|
  {
    hide Push, Widen;
    if |v| > 1 {
      PackLast(Push(c, Widen(v[0])), v[1..]);
      assert v[1..][..|v| - 2] == v[..|v| - 1][1..];
    } else {
      assert v[1..] == [] && v[..0] == [];
    }
  }

  lemma {:induction false} PackRoom(v: seq<bv8>)
    requires |v| <= 6 && Symbols(v)
    ensures Room(PackFrom(0, v), 6 - |v|)
    decreases |v|
  {
    hide Push, Room, Widen;
    if v == [] {
      EmptyRoom();
    } else {
      PackRoom(v[..|v| - 1]);
      PackLast(0, v);
      PushRoom(PackFrom(0, v[..|v| - 1]), v[|v| - 1], 7 - |v|);
    }
  }

  lemma EmptyRoom()
    ensures Room(0, 6)
  {
  }

  lemma {:induction false} UnpackPack(v: seq<bv8>)
    requires |v| <= 6 && Symbols(v)
    ensures UnpackTo(PackFrom(0, v), |v|) == v
    decreases |v|
  {
    hide Push, Room, Widen, PackFrom, UnpackTo;
    if v == [] {
      UnpackNone(PackFrom(0, v));
    } else {
      var w := v[..|v| - 1];
      UnpackPack(w);
      PackRoom(w);
      PackLast(0, v);
      PushRoom(PackFrom(0, w), v[|v| - 1], 7 - |v|);
      PushBack(PackFrom(0, w), v[|v| - 1]);
      UnpackLast(PackFrom(0, v), |v|);
      assert v == w + [v[|v| - 1]];
    }
  }

  lemma UnpackNone(m: bv32)
    ensures UnpackTo(m, 0) == []
  {
  }

  lemma UnpackLast(m: bv32, n: nat)
    requires n > 0
    ensures UnpackTo(m, n) == UnpackTo(m >> 5, n - 1) + [(m & 31) as bv8]
  {
  }

  lemma {:induction false} PackUnpack(m: bv32, n: nat)
    requires n <= 6 && Room(m, 6 - n)
    ensures Symbols(UnpackTo(m, n)) && |UnpackTo(m, n)| == n && PackFrom(0, UnpackTo(m, n)) == m
    decreases n
  {
    hide Push, Room, Widen;
    if n == 0 {
      NoRoom(m);
    } else {
      ShiftRoom(m, n);
      PackUnpack(m >> 5, n - 1);
      var v := UnpackTo(m, n);
      assert v[..|v| - 1] == UnpackTo(m >> 5, n - 1);
      PackLast(0, v);
      LowSymbol(m);
    }
  }

  lemma NoRoom(m: bv32)
    requires Room(m, 6)
    ensures m == 0
  {
  }

  lemma ShiftRoom(m: bv32, n: nat)
    requires 0 < n <= 6 && Room(m, 6 - n)
    ensures Room(m >> 5, 7 - n) && Push(m >> 5, Widen((m & 31) as bv8)) == m
  {
    LowSymbol(m);
  }

  lemma LowSymbol(m: bv32)
    ensures (m & 31) as bv8 < 32 && Push(m >> 5, Widen((m & 31) as bv8)) == m
  {
  }

  // ----- the checksum of a list -----

  function Checksum(enc: seq<bv8>): seq<bv8> {
    UnpackTo(X(PolyMod(enc + Zeros(6)), 1), 6)
  }

  lemma PolySplit(c: bv32, v: seq<bv8>)
    ensures PolyFrom(c, v) == X(PolyFrom(c, Zeros(|v|)), PolyFrom(0, v))
  {
    hide X, X8, PolyFrom;
    PolyXor(c, 0, Zeros(|v|), v);
    XorLaws(c);
    ZeroXor(v);
  }

  lemma ZeroXor(v: seq<bv8>)
    ensures Xor(Zeros(|v|), v) == v
  {
    forall i | 0 <= i < |v| ensures Xor(Zeros(|v|), v)[i] == v[i] {
      ZeroXor8(v[i]);
    }
  }

  lemma ZeroXor8(a: bv8)
    ensures X8(0, a) == a && X8(a, 0) == a && X8(a, a) == 0
  {
  }

  lemma XorOne(r: bv32, p: bv32)
    ensures X(r, p) == 1 <==> p == X(r, 1)
  {
    hide X;
    XorBack(p, r);
    XorBack(r, p);
    XorBack(1, r);
    XorBack(r, 1);
    XorBack(X(1, r), r);
  }

  lemma OneSmall(r: bv32)
    requires Small(r)
    ensures Room(X(r, 1), 0) && Small(1)
  {
  }

  /** Six symbols make a list valid exactly when they are its checksum. */
  lemma ChecksumUnique(enc: seq<bv8>, cs: seq<bv8>)
    requires |cs| == 6 && Symbols(cs)
    ensures PolyMod(enc + cs) == 1 <==> cs == Checksum(enc)
  {
    hide X, PolyFrom, PackFrom, UnpackTo, Room, Small;
    var c := PolyFrom(1, enc);
    PolyConcat(1, enc, cs);
    PolyConcat(1, enc, Zeros(6));
    PolySplit(c, cs);
    EmptyRoom();
    LineUp(0, cs);
    var r := PolyFrom(c, Zeros(6));
    XorOne(r, PackFrom(0, cs));
    UnpackPack(cs);
    OneSmall(0);
    PolySmall(1, enc + Zeros(6));
    OneSmall(r);
    PackUnpack(X(r, 1), 6);
  }

  lemma ChecksumSymbols(enc: seq<bv8>)
    ensures |Checksum(enc)| == 6 && Symbols(Checksum(enc))
  {
    hide X, PolyFrom, UnpackTo, Room, Small;
    OneSmall(0);
    PolySmall(1, enc + Zeros(6));
    OneSmall(PolyMod(enc + Zeros(6)));
    PackUnpack(X(PolyMod(enc + Zeros(6)), 1), 6);
  }

  // ----- single errors -----

  lemma {:induction false} ZerosStayZero(n: nat)
    ensures PolyFrom(0, Zeros(n)) == 0
  {
    hide Step, Widen;
    if n > 0 {
      assert Zeros(n)[1..] == Zeros(n - 1);
      StepZero();
      ZerosStayZero(n - 1);
    }
  }

  lemma StepZero()
    ensures Step(0, Widen(0)) == 0
  {
  }

  lemma {:induction false} NonZeroStays(c: bv32, n: nat)
    requires Small(c) && c != 0
    ensures PolyFrom(c, Zeros(n)) != 0
    decreases n
  {
    hide Step, Widen, Small;
    if n > 0 {
      assert Zeros(n)[1..] == Zeros(n - 1);
      NonZeroStep(c);
      StepSmall(c, 0);
      NonZeroStays(Step(c, Widen(0)), n - 1);
    }
  }

  lemma NonZeroStep(c: bv32)
    requires Small(c) && c != 0
    ensures Step(c, Widen(0)) != 0
  {
    StepKeepsNonZero(c);
  }

  lemma {:induction false} UnpackZero(n: nat)
    ensures UnpackTo(0, n) == Zeros(n)
  {
    if n > 0 {
      UnpackZero(n - 1);
      ZeroWord();
      assert Zeros(n) == Zeros(n - 1) + [0];
    }
  }

  lemma ZeroWord()
    ensures (0 as bv32) >> 5 == 0 && ((0 as bv32) & 31) as bv8 == 0
  {
  }

  lemma ZeroRoom(n: nat)
    ensures Room(0, n) && Small(0)
  {
  }

  /** Up to six symbols, not all zero, leave a remainder that is not zero, however many zeros follow. */
  lemma BurstShows(before: nat, d: seq<bv8>, after: nat)
    requires |d| <= 6 && Symbols(d) && d != Zeros(|d|)
    ensures PolyFrom(0, Zeros(before) + (d + Zeros(after))) != 0
  {
    hide Step, Widen, Small, PolyFrom, PackFrom, UnpackTo, Room;
    PolyConcat(0, Zeros(before), d + Zeros(after));
    ZerosStayZero(before);
    PolyConcat(0, d, Zeros(after));
    ZeroRoom(|d|);
    LineUp(0, d);
    UnpackPack(d);
    UnpackZero(|d|);
    PolySmall(0, d);
    NonZeroStays(PolyFrom(0, d), after);
  }

  /** What has to be added to one list to get the other. */
  lemma XorDifference(v: seq<bv8>, w: seq<bv8>)
    requires |v| == |w|
    ensures Xor(v, Xor(v, w)) == w
  {
    hide X8;
    forall j | 0 <= j < |v| ensures Xor(v, Xor(v, w))[j] == w[j] {
      XorTwice(v[j], w[j]);
    }
  }

  lemma XorTwice(a: bv8, b: bv8)
    ensures X8(a, X8(a, b)) == b && (X8(a, b) == 0 <==> a == b) && (a < 32 && b < 32 ==> X8(a, b) < 32)
  {
  }

  /** Lists that differ, but only within six consecutive symbols, have different checksums. */
  lemma BurstDetected(v: seq<bv8>, w: seq<bv8>, i: nat, k: nat)
    requires |v| == |w| && i + k <= |v| && k <= 6 && v != w
    requires forall j | 0 <= j < |v| && !(i <= j < i + k) :: v[j] == w[j]
    requires Symbols(v[i..i + k]) && Symbols(w[i..i + k])
    ensures PolyMod(v) != PolyMod(w)
  {
    hide X, X8, PolyFrom;
    var e := Xor(v, w);
    var d := e[i..i + k];
    forall j | 0 <= j < |v| ensures e[j] == 0 <==> v[j] == w[j] {
      XorTwice(v[j], w[j]);
    }
    forall j | 0 <= j < k ensures d[j] < 32 {
      assert v[i + j] == v[i..i + k][j] && w[i + j] == w[i..i + k][j];
      XorTwice(v[i + j], w[i + j]);
    }
    assert e == Zeros(i) + (d + Zeros(|v| - i - k));
    assert d != Zeros(k) by {
      var j :| 0 <= j < |v| && v[j] != w[j];
      assert d[j - i] == e[j];
    }
    BurstShows(i, d, |v| - i - k);
    XorDifference(v, w);
    PolyXor(1, 0, v, e);
    XorLaws(1);
    XorUnchanged(PolyFrom(1, v), PolyFrom(0, e));
  }

  lemma XorUnchanged(a: bv32, b: bv32)
    ensures X(a, b) == a <==> b == 0
  {
  }

  // ----- the generator -----

  /** Twice a symbol, in the field of 32 elements where a^5 is a^3 + 1. */
  function Twice(v: bv8): bv8 { ((v << 1) & 31) ^ (if v & 16 != 0 then 9 else 0) }

  function TwiceAll(v: seq<bv8>): seq<bv8> { seq(|v|, i requires 0 <= i < |v| => Twice(v[i])) }

  /** The generator x^6 + {29}x^5 + {22}x^4 + {20}x^3 + {21}x^2 + {29}x + {18}, without its leading term. */
  const GENERATOR: seq<bv8> := [29, 22, 20, 21, 29, 18]

  /** The five words used for reduction are the generator times 1, 2, 4, 8 and 16 in the field. */
  lemma ReductionWords()
    ensures UnpackTo(0x3b6a57b2, 6) == GENERATOR
    ensures UnpackTo(0x26508e6d, 6) == TwiceAll(GENERATOR)
    ensures UnpackTo(0x1ea119fa, 6) == TwiceAll(TwiceAll(GENERATOR))
    ensures UnpackTo(0x3d4233dd, 6) == TwiceAll(TwiceAll(TwiceAll(GENERATOR)))
    ensures UnpackTo(0x2a1462b3, 6) == TwiceAll(TwiceAll(TwiceAll(TwiceAll(GENERATOR))))
  {
    hide UnpackTo;
    Unpacks(0x3b6a57b2, [29, 22, 20, 21, 29, 18]);
    Unpacks(0x26508e6d, [19, 5, 1, 3, 19, 13]);
    Unpacks(0x1ea119fa, [15, 10, 2, 6, 15, 26]);
    Unpacks(0x3d4233dd, [30, 20, 4, 12, 30, 29]);
    Unpacks(0x2a1462b3, [21, 1, 8, 24, 21, 19]);
    assert TwiceAll([29, 22, 20, 21, 29, 18]) == [19, 5, 1, 3, 19, 13];
    assert TwiceAll([19, 5, 1, 3, 19, 13]) == [15, 10, 2, 6, 15, 26];
    assert TwiceAll([15, 10, 2, 6, 15, 26]) == [30, 20, 4, 12, 30, 29];
    assert TwiceAll([30, 20, 4, 12, 30, 29]) == [21, 1, 8, 24, 21, 19];
  }

  /** Six symbols written out. */
  function Six(v: seq<bv8>): bv32
    requires |v| == 6
  {
    Push(Push(Push(Push(Push(Push(0, Widen(v[0])), Widen(v[1])), Widen(v[2])), Widen(v[3])), Widen(v[4])), Widen(v[5]))
  }

  lemma SixIsPack(v: seq<bv8>)
    requires |v| == 6
    ensures PackFrom(0, v) == Six(v)
  {
    hide Push, Widen;
    var a, b, c, d, e := v[1..], v[2..], v[3..], v[4..], v[5..];
    assert a[1..] == b && b[1..] == c && c[1..] == d && d[1..] == e && e[1..] == [];
    var p := Push(0, Widen(v[0]));
    var q := Push(p, Widen(v[1]));
    var r := Push(q, Widen(v[2]));
    assert PackFrom(0, v) == PackFrom(p, a) == PackFrom(q, b) == PackFrom(r, c);
    var s := Push(r, Widen(v[3]));
    var t := Push(s, Widen(v[4]));
    assert PackFrom(r, c) == PackFrom(s, d) == PackFrom(t, e);
    assert PackFrom(t, e) == PackFrom(Push(t, Widen(v[5])), []);
  }

  lemma Unpacks(m: bv32, v: seq<bv8>)
    requires |v| == 6 && Symbols(v) && Six(v) == m
    ensures UnpackTo(m, 6) == v
  {
    hide UnpackTo, PackFrom, Six;
    SixIsPack(v);
    UnpackPack(v);
  }
}
