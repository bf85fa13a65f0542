/**
 Three wrong symbols in a Bech32 string, however far apart: the comment in `src/bech32.cpp` promises that up to
 three errors within 1023 characters are detected, because the code is a BCH code.  The generator has three
 roots in the field of 1024 elements that are consecutive powers of one element e, whose powers repeat only
 after 1023 steps.  A remainder that is zero vanishes at all three roots, and three terms cannot.
 */
module Bech32Bch {
  import opened Bech32Checksum
  import opened Bech32Field

  // ----- symbols as elements, and the value of a remainder at a power of e -----

  /** A symbol as an element: its bits select the powers of a root of a^5 + a^3 + 1. */
  function Emb(s: bv32): bv32 { Pick(Has(s, 1), Has(s, 2), Has(s, 4), Has(s, 8), Has(s, 16)) }

  function Pick(b0: bool, b1: bool, b2: bool, b3: bool, b4: bool): bv32 {
    Five(Select(b0, 0x1), Select(b1, 0xe), Select(b2, 0x54), Select(b3, 0x358), Select(b4, 0xbf))
  }

  lemma PickXor(
    a: bool, b: bool, c: bool, d: bool, e: bool, p: bool, q: bool, r: bool, s: bool, t: bool)
    ensures Pick(a != p, b != q, c != r, d != s, e != t) == X(Pick(a, b, c, d, e), Pick(p, q, r, s, t))
  {
    hide X, Select, Five;
    SelectXor(a, p, 0x1);
    SelectXor(b, q, 0xe);
    SelectXor(c, r, 0x54);
    SelectXor(d, s, 0x358);
    SelectXor(e, t, 0xbf);
    FiveXor(Select(a, 0x1), Select(b, 0xe), Select(c, 0x54), Select(d, 0x358), Select(e, 0xbf),
            Select(p, 0x1), Select(q, 0xe), Select(r, 0x54), Select(s, 0x358), Select(t, 0xbf));
  }

  lemma EmbXor(s: bv32, t: bv32)
    ensures Emb(X(s, t)) == X(Emb(s), Emb(t))
  {
    hide X, Has, Pick;
    HasXor(s, t);
    PickXor(Has(s, 1), Has(s, 2), Has(s, 4), Has(s, 8), Has(s, 16),
            Has(t, 1), Has(t, 2), Has(t, 4), Has(t, 8), Has(t, 16));
  }

  lemma EmbIn(s: bv32)
    ensures In(Emb(s)) && Emb(0) == 0
  {
    hide Has;
    assert !Has(0, 1) && !Has(0, 2) && !Has(0, 4) && !Has(0, 8) && !Has(0, 16) by {
      HasNothing();
    }
    PickIn(Has(s, 1), Has(s, 2), Has(s, 4), Has(s, 8), Has(s, 16));
  }

  lemma HasNothing()
    ensures !Has(0, 1) && !Has(0, 2) && !Has(0, 4) && !Has(0, 8) && !Has(0, 16)
  {
  }

  lemma PickIn(b0: bool, b1: bool, b2: bool, b3: bool, b4: bool)
    ensures In(Pick(b0, b1, b2, b3, b4)) && Pick(false, false, false, false, false) == 0
  {
  }

  lemma PickZero(b0: bool, b1: bool, b2: bool, b3: bool, b4: bool)
    requires Pick(b0, b1, b2, b3, b4) == 0
    ensures !b0 && !b1 && !b2 && !b3 && !b4
  {
  }

  lemma EmbZero(s: bv32)
    requires s < 32 && Emb(s) == 0
    ensures s == 0
  {
    hide Pick;
    PickZero(Has(s, 1), Has(s, 2), Has(s, 4), Has(s, 8), Has(s, 16));
  }

  /** One step of evaluating a polynomial at e^k. */
  function Link(u: bv32, a: bv32, k: nat): bv32 { X(Raise(u, k), a) }

  function Chain(u: bv32, a: bv32, b: bv32, c: bv32, d: bv32, e: bv32, k: nat): bv32 {
    Link(Link(Link(Link(Link(u, a, k), b, k), c, k), d, k), e, k)
  }

  function S(c: bv32, i: nat): bv32
    requires i < 6
  {
    if i == 0 then c & 31 else if i == 1 then (c >> 5) & 31 else if i == 2 then (c >> 10) & 31
    else if i == 3 then (c >> 15) & 31 else if i == 4 then (c >> 20) & 31 else (c >> 25) & 31
  }

  /** The remainder's symbols as the coefficients of a polynomial, evaluated at e^k. */
  function Ev(c: bv32, k: nat): bv32 {
    Chain(Emb(S(c, 5)), Emb(S(c, 4)), Emb(S(c, 3)), Emb(S(c, 2)), Emb(S(c, 1)), Emb(S(c, 0)), k)
  }

  lemma LinkIn(u: bv32, a: bv32, k: nat)
    requires In(u) && In(a)
    ensures In(Link(u, a, k))
  {
    hide X, In, Raise;
    RaiseIn(u, k);
    XorIn(Raise(u, k), a);
  }

  lemma LinkXor(u: bv32, a: bv32, v: bv32, b: bv32, k: nat)
    requires In(u) && In(v) && In(a) && In(b)
    ensures Link(X(u, v), X(a, b), k) == X(Link(u, a, k), Link(v, b, k))
    ensures In(Link(u, a, k)) && In(Link(v, b, k))
  {
    LinkIn(u, a, k);
    LinkIn(v, b, k);
    hide X, In, Raise;
    RaiseXor(u, v, k);
    Regroup2(Raise(u, k), a, Raise(v, k), b);
  }

  lemma ChainXor(
    u: bv32, a: bv32, b: bv32, c: bv32, d: bv32, e: bv32, v: bv32, p: bv32, q: bv32, r: bv32, s: bv32, t: bv32, k: nat)
    requires In(u) && In(a) && In(b) && In(c) && In(d) && In(e) && In(v) && In(p) && In(q) && In(r) && In(s) && In(t)
    ensures Chain(X(u, v), X(a, p), X(b, q), X(c, r), X(d, s), X(e, t), k)
            == X(Chain(u, a, b, c, d, e, k), Chain(v, p, q, r, s, t, k))
    ensures In(Chain(u, a, b, c, d, e, k))
  {
    hide X, In, Link;
    LinkXor(u, a, v, p, k);
    var u1, v1 := Link(u, a, k), Link(v, p, k);
    LinkXor(u1, b, v1, q, k);
    var u2, v2 := Link(u1, b, k), Link(v1, q, k);
    LinkXor(u2, c, v2, r, k);
    var u3, v3 := Link(u2, c, k), Link(v2, r, k);
    LinkXor(u3, d, v3, s, k);
    LinkXor(Link(u3, d, k), e, Link(v3, s, k), t, k);
  }

  lemma LinkNone(u: bv32, k: nat)
    ensures Link(u, 0, k) == Raise(u, k)
  {
    hide X, Raise;
    XorLaws(Raise(u, k));
  }

  lemma ChainNone(u: bv32, k: nat)
    ensures Chain(u, 0, 0, 0, 0, 0, k) == Raise(u, 5 * k)
  {
    hide Link, Raise;
    LinkNone(u, k);
    LinkNone(Raise(u, k), k);
    LinkNone(Raise(u, 2 * k), k);
    LinkNone(Raise(u, 3 * k), k);
    LinkNone(Raise(u, 4 * k), k);
    RaiseAdd(u, k, k);
    RaiseAdd(u, 2 * k, k);
    RaiseAdd(u, 3 * k, k);
    RaiseAdd(u, 4 * k, k);
  }

  lemma SymbolXor(c: bv32, d: bv32)
    ensures forall i | 0 <= i < 6 :: S(X(c, d), i) == X(S(c, i), S(d, i))
  {
    SymbolXorAt0(c, d);
    SymbolXorAt1(c, d);
    SymbolXorAt2(c, d);
    SymbolXorAt3(c, d);
    SymbolXorAt4(c, d);
    SymbolXorAt5(c, d);
    hide X, S;
    forall i | 0 <= i < 6 ensures S(X(c, d), i) == X(S(c, i), S(d, i)) {
      assert i == 0 || i == 1 || i == 2 || i == 3 || i == 4 || i == 5;
    }
  }

  lemma SymbolXorAt0(c: bv32, d: bv32)
    ensures S(X(c, d), 0) == X(S(c, 0), S(d, 0))
  {
  }

  lemma SymbolXorAt1(c: bv32, d: bv32)
    ensures S(X(c, d), 1) == X(S(c, 1), S(d, 1))
  {
  }

  lemma SymbolXorAt2(c: bv32, d: bv32)
    ensures S(X(c, d), 2) == X(S(c, 2), S(d, 2))
  {
  }

  lemma SymbolXorAt3(c: bv32, d: bv32)
    ensures S(X(c, d), 3) == X(S(c, 3), S(d, 3))
  {
  }

  lemma SymbolXorAt4(c: bv32, d: bv32)
    ensures S(X(c, d), 4) == X(S(c, 4), S(d, 4))
  {
  }

  lemma SymbolXorAt5(c: bv32, d: bv32)
    ensures S(X(c, d), 5) == X(S(c, 5), S(d, 5))
  {
  }

  lemma SymbolsIn(c: bv32)
    ensures forall i | 0 <= i < 6 :: In(Emb(S(c, i)))
  {
    forall i | 0 <= i < 6 ensures In(Emb(S(c, i))) {
      EmbIn(S(c, i));
    }
  }

  lemma EvXor(c: bv32, d: bv32, k: nat)
    ensures Ev(X(c, d), k) == X(Ev(c, k), Ev(d, k)) && In(Ev(c, k))
  {
    SymbolXor(c, d);
    SymbolsIn(c);
    SymbolsIn(d);
    hide X, S, Emb, In, Chain;
    forall i | 0 <= i < 6 ensures Emb(S(X(c, d), i)) == X(Emb(S(c, i)), Emb(S(d, i))) {
      EmbXor(S(c, i), S(d, i));
    }
    ChainXor(Emb(S(c, 5)), Emb(S(c, 4)), Emb(S(c, 3)), Emb(S(c, 2)), Emb(S(c, 1)), Emb(S(c, 0)),
             Emb(S(d, 5)), Emb(S(d, 4)), Emb(S(d, 3)), Emb(S(d, 2)), Emb(S(d, 1)), Emb(S(d, 0)), k);
  }

  lemma SymbolsOfSmall(v: bv32)
    requires v < 32
    ensures S(v, 0) == v && S(v, 1) == 0 && S(v, 2) == 0 && S(v, 3) == 0 && S(v, 4) == 0 && S(v, 5) == 0
  {
  }

  /** A constant has its own value everywhere. */
  lemma EvConstant(v: bv32, k: nat)
    requires v < 32
    ensures Ev(v, k) == Emb(v)
  {
    SymbolsOfSmall(v);
    EmbIn(0);
    hide X, S, Emb, Raise;
    LinkNone(0, k);
    RaiseZero(k);
    XorLaws(Emb(v));
  }

  // ----- the three roots -----

  predicate Root(k: nat) { 24 <= k <= 26 }

  function At(u: bv32, k: nat): bv32 {
    if k == 24 then N24(u) else if k == 25 then T(N24(u)) else T(T(N24(u)))
  }

  lemma AtIs(u: bv32, k: nat)
    requires Root(k)
    ensures Raise(u, k) == At(u, k)
  {
    hide T, N24;
    By24(u);
    assert Raise(u, 25) == T(Raise(u, 24));
    assert Raise(u, 26) == T(Raise(u, 25));
  }

  lemma LinkIs(u: bv32, a: bv32, k: nat, v: bv32)
    requires Root(k) && At(u, k) == X(a, v)
    ensures Link(u, a, k) == v
  {
    hide X, Raise, At;
    AtIs(u, k);
    XorBack(v, a);
    XorBack(a, v);
  }

  /** A word whose value, with z times the sixth power taken off, is zero. */
  lemma WordAt(w: bv32, z: bv32, k: nat)
    requires In(z) && Chain(Link(z, Emb(S(w, 5)), k), Emb(S(w, 4)), Emb(S(w, 3)), Emb(S(w, 2)), Emb(S(w, 1)),
                            Emb(S(w, 0)), k) == 0
    ensures Ev(w, k) == Raise(z, 6 * k)
  {
    SymbolsIn(w);
    EmbIn(0);
    hide X, S, Emb, In, Chain, Raise;
    var a, b, c, d, e, f := Emb(S(w, 5)), Emb(S(w, 4)), Emb(S(w, 3)), Emb(S(w, 2)), Emb(S(w, 1)), Emb(S(w, 0));
    RaiseIn(z, k);
    ZeroIn();
    ChainXor(Raise(z, k), 0, 0, 0, 0, 0, a, b, c, d, e, f, k);
    XorLaws(b);
    XorLaws(c);
    XorLaws(d);
    XorLaws(e);
    XorLaws(f);
    ChainNone(Raise(z, k), k);
    RaiseAdd(z, k, 5 * k);
    SameIsZero(Raise(z, 6 * k), Ev(w, k));
  }

  lemma ZeroIn()
    ensures In(0)
  {
  }

  lemma ChainIs(u: bv32, a: bv32, b: bv32, c: bv32, d: bv32, e: bv32, k: nat,
                p: bv32, q: bv32, r: bv32, s: bv32)
    requires Link(u, a, k) == p && Link(p, b, k) == q && Link(q, c, k) == r && Link(r, d, k) == s && Link(s, e, k) == 0
    ensures Chain(u, a, b, c, d, e, k) == 0
  {
    hide Link;
  }

  lemma Word0()
    ensures Emb(S(0x3b6a57b2, 5)) == 0x3b2 && Emb(S(0x3b6a57b2, 4)) == 0xe5 && Emb(S(0x3b6a57b2, 3)) == 0xeb
    ensures Emb(S(0x3b6a57b2, 2)) == 0xea && Emb(S(0x3b6a57b2, 1)) == 0x3b2 && Emb(S(0x3b6a57b2, 0)) == 0xb1
  {
  }

  lemma Word1()
    ensures Emb(S(0x26508e6d, 5)) == 0xb0 && Emb(S(0x26508e6d, 4)) == 0x55 && Emb(S(0x26508e6d, 3)) == 0x1
    ensures Emb(S(0x26508e6d, 2)) == 0xf && Emb(S(0x26508e6d, 1)) == 0xb0 && Emb(S(0x26508e6d, 0)) == 0x30d
  {
  }

  lemma Word2()
    ensures Emb(S(0x1ea119fa, 5)) == 0x303 && Emb(S(0x1ea119fa, 4)) == 0x356 && Emb(S(0x1ea119fa, 3)) == 0xe
    ensures Emb(S(0x1ea119fa, 2)) == 0x5a && Emb(S(0x1ea119fa, 1)) == 0x303 && Emb(S(0x1ea119fa, 0)) == 0x3e9
  {
  }

  lemma Word3()
    ensures Emb(S(0x3d4233dd, 5)) == 0x3bd && Emb(S(0x3d4233dd, 4)) == 0xeb && Emb(S(0x3d4233dd, 3)) == 0x54
    ensures Emb(S(0x3d4233dd, 2)) == 0x30c && Emb(S(0x3d4233dd, 1)) == 0x3bd && Emb(S(0x3d4233dd, 0)) == 0x3b2
  {
  }

  lemma Word4()
    ensures Emb(S(0x2a1462b3, 5)) == 0xea && Emb(S(0x2a1462b3, 4)) == 0x1 && Emb(S(0x2a1462b3, 3)) == 0x358
    ensures Emb(S(0x2a1462b3, 2)) == 0x3e7 && Emb(S(0x2a1462b3, 1)) == 0xea && Emb(S(0x2a1462b3, 0)) == 0xb0
  {
  }

  lemma Root24Word0()
    ensures Ev(0x3b6a57b2, 24) == Raise(0x1, 6 * 24)
  {
    Word0();
    hide X, S, Emb, Raise, Chain, Link;
    XorIs(0x3b2, 0x42, 0x3f0);
    LinkIs(0x1, 0x3b2, 24, 0x42);
    XorIs(0xe5, 0x230, 0x2d5);
    LinkIs(0x42, 0xe5, 24, 0x230);
    XorIs(0xeb, 0x2c4, 0x22f);
    LinkIs(0x230, 0xeb, 24, 0x2c4);
    XorIs(0xea, 0xc5, 0x2f);
    LinkIs(0x2c4, 0xea, 24, 0xc5);
    XorIs(0x3b2, 0xdd, 0x36f);
    LinkIs(0xc5, 0x3b2, 24, 0xdd);
    XorIs(0xb1, 0x0, 0xb1);
    LinkIs(0xdd, 0xb1, 24, 0x0);
    ChainIs(0x42, 0xe5, 0xeb, 0xea, 0x3b2, 0xb1, 24, 0x230, 0x2c4, 0xc5, 0xdd);
    WordAt(0x3b6a57b2, 0x1, 24);
  }

  lemma Root24Word1()
    ensures Ev(0x26508e6d, 24) == Raise(0xe, 6 * 24)
  {
    Word1();
    hide X, S, Emb, Raise, Chain, Link;
    XorIs(0xb0, 0x39c, 0x32c);
    LinkIs(0xe, 0xb0, 24, 0x39c);
    XorIs(0x55, 0x3ea, 0x3bf);
    LinkIs(0x39c, 0x55, 24, 0x3ea);
    XorIs(0x1, 0x351, 0x350);
    LinkIs(0x3ea, 0x1, 24, 0x351);
    XorIs(0xf, 0x195, 0x19a);
    LinkIs(0x351, 0xf, 24, 0x195);
    XorIs(0xb0, 0x105, 0x1b5);
    LinkIs(0x195, 0xb0, 24, 0x105);
    XorIs(0x30d, 0x0, 0x30d);
    LinkIs(0x105, 0x30d, 24, 0x0);
    ChainIs(0x39c, 0x55, 0x1, 0xf, 0xb0, 0x30d, 24, 0x3ea, 0x351, 0x195, 0x105);
    WordAt(0x26508e6d, 0xe, 24);
  }

  lemma Root24Word2()
    ensures Ev(0x1ea119fa, 24) == Raise(0x54, 6 * 24)
  {
    Word2();
    hide X, S, Emb, Raise, Chain, Link;
    XorIs(0x303, 0x124, 0x227);
    LinkIs(0x54, 0x303, 24, 0x124);
    XorIs(0x356, 0x3a0, 0xf6);
    LinkIs(0x124, 0x356, 24, 0x3a0);
    XorIs(0xe, 0xc1, 0xcf);
    LinkIs(0x3a0, 0xe, 24, 0xc1);
    XorIs(0x5a, 0x390, 0x3ca);
    LinkIs(0xc1, 0x5a, 24, 0x390);
    XorIs(0x303, 0x153, 0x250);
    LinkIs(0x390, 0x303, 24, 0x153);
    XorIs(0x3e9, 0x0, 0x3e9);
    LinkIs(0x153, 0x3e9, 24, 0x0);
    ChainIs(0x124, 0x356, 0xe, 0x5a, 0x303, 0x3e9, 24, 0x3a0, 0xc1, 0x390, 0x153);
    WordAt(0x1ea119fa, 0x54, 24);
  }

  lemma Root24Word3()
    ensures Ev(0x3d4233dd, 24) == Raise(0x358, 6 * 24)
  {
    Word3();
    hide X, S, Emb, Raise, Chain, Link;
    XorIs(0x3bd, 0x9d, 0x320);
    LinkIs(0x358, 0x3bd, 24, 0x9d);
    XorIs(0xeb, 0x4c, 0xa7);
    LinkIs(0x9d, 0xeb, 24, 0x4c);
    XorIs(0x54, 0x1ad, 0x1f9);
    LinkIs(0x4c, 0x54, 24, 0x1ad);
    XorIs(0x30c, 0x16c, 0x260);
    LinkIs(0x1ad, 0x30c, 24, 0x16c);
    XorIs(0x3bd, 0x217, 0x1aa);
    LinkIs(0x16c, 0x3bd, 24, 0x217);
    XorIs(0x3b2, 0x0, 0x3b2);
    LinkIs(0x217, 0x3b2, 24, 0x0);
    ChainIs(0x9d, 0xeb, 0x54, 0x30c, 0x3bd, 0x3b2, 24, 0x4c, 0x1ad, 0x16c, 0x217);
    WordAt(0x3d4233dd, 0x358, 24);
  }

  lemma Root24Word4()
    ensures Ev(0x2a1462b3, 24) == Raise(0xbf, 6 * 24)
  {
    Word4();
    hide X, S, Emb, Raise, Chain, Link;
    XorIs(0xea, 0x285, 0x26f);
    LinkIs(0xbf, 0xea, 24, 0x285);
    XorIs(0x1, 0x3c8, 0x3c9);
    LinkIs(0x285, 0x1, 24, 0x3c8);
    XorIs(0x358, 0x2c0, 0x198);
    LinkIs(0x3c8, 0x358, 24, 0x2c0);
    XorIs(0x3e7, 0x36d, 0x8a);
    LinkIs(0x2c0, 0x3e7, 24, 0x36d);
    XorIs(0xea, 0x200, 0x2ea);
    LinkIs(0x36d, 0xea, 24, 0x200);
    XorIs(0xb0, 0x0, 0xb0);
    LinkIs(0x200, 0xb0, 24, 0x0);
    ChainIs(0x285, 0x1, 0x358, 0x3e7, 0xea, 0xb0, 24, 0x3c8, 0x2c0, 0x36d, 0x200);
    WordAt(0x2a1462b3, 0xbf, 24);
  }

  lemma Root25Word0()
    ensures Ev(0x3b6a57b2, 25) == Raise(0x1, 6 * 25)
  {
    Word0();
    hide X, S, Emb, Raise, Chain, Link;
    XorIs(0x3b2, 0x171, 0x2c3);
    LinkIs(0x1, 0x3b2, 25, 0x171);
    XorIs(0xe5, 0x2a7, 0x242);
    LinkIs(0x171, 0xe5, 25, 0x2a7);
    XorIs(0xeb, 0x2e9, 0x202);
    LinkIs(0x2a7, 0xeb, 25, 0x2e9);
    XorIs(0xea, 0x1bf, 0x155);
    LinkIs(0x2e9, 0xea, 25, 0x1bf);
    XorIs(0x3b2, 0x2ff, 0x14d);
    LinkIs(0x1bf, 0x3b2, 25, 0x2ff);
    XorIs(0xb1, 0x0, 0xb1);
    LinkIs(0x2ff, 0xb1, 25, 0x0);
    ChainIs(0x171, 0xe5, 0xeb, 0xea, 0x3b2, 0xb1, 25, 0x2a7, 0x2e9, 0x1bf, 0x2ff);
    WordAt(0x3b6a57b2, 0x1, 25);
  }

  lemma Root25Word1()
    ensures Ev(0x26508e6d, 25) == Raise(0xe, 6 * 25)
  {
    Word1();
    hide X, S, Emb, Raise, Chain, Link;
    XorIs(0xb0, 0x3cb, 0x37b);
    LinkIs(0xe, 0xb0, 25, 0x3cb);
    XorIs(0x55, 0x103, 0x156);
    LinkIs(0x3cb, 0x55, 25, 0x103);
    XorIs(0x1, 0x2d7, 0x2d6);
    LinkIs(0x103, 0x1, 25, 0x2d7);
    XorIs(0xf, 0x23c, 0x233);
    LinkIs(0x2d7, 0xf, 25, 0x23c);
    XorIs(0xb0, 0x213, 0x2a3);
    LinkIs(0x23c, 0xb0, 25, 0x213);
    XorIs(0x30d, 0x0, 0x30d);
    LinkIs(0x213, 0x30d, 25, 0x0);
    ChainIs(0x3cb, 0x55, 0x1, 0xf, 0xb0, 0x30d, 25, 0x103, 0x2d7, 0x23c, 0x213);
    WordAt(0x26508e6d, 0xe, 25);
  }

  lemma Root25Word2()
    ensures Ev(0x1ea119fa, 25) == Raise(0x54, 6 * 25)
  {
    Word2();
    hide X, S, Emb, Raise, Chain, Link;
    XorIs(0x303, 0x26e, 0x16d);
    LinkIs(0x54, 0x303, 25, 0x26e);
    XorIs(0x356, 0x177, 0x221);
    LinkIs(0x26e, 0x356, 25, 0x177);
    XorIs(0xe, 0x3a3, 0x3ad);
    LinkIs(0x177, 0xe, 25, 0x3a3);
    XorIs(0x5a, 0x3a2, 0x3f8);
    LinkIs(0x3a3, 0x5a, 25, 0x3a2);
    XorIs(0x303, 0x238, 0x13b);
    LinkIs(0x3a2, 0x303, 25, 0x238);
    XorIs(0x3e9, 0x0, 0x3e9);
    LinkIs(0x238, 0x3e9, 25, 0x0);
    ChainIs(0x26e, 0x356, 0xe, 0x5a, 0x303, 0x3e9, 25, 0x177, 0x3a3, 0x3a2, 0x238);
    WordAt(0x1ea119fa, 0x54, 25);
  }

  lemma Root25Word3()
    ensures Ev(0x3d4233dd, 25) == Raise(0x358, 6 * 25)
  {
    Word3();
    hide X, S, Emb, Raise, Chain, Link;
    XorIs(0x3bd, 0xde, 0x363);
    LinkIs(0x358, 0x3bd, 25, 0xde);
    XorIs(0xeb, 0x3ef, 0x304);
    LinkIs(0xde, 0xeb, 25, 0x3ef);
    XorIs(0x54, 0x5e, 0xa);
    LinkIs(0x3ef, 0x54, 25, 0x5e);
    XorIs(0x30c, 0x50, 0x35c);
    LinkIs(0x5e, 0x30c, 25, 0x50);
    XorIs(0x3bd, 0x39a, 0x27);
    LinkIs(0x50, 0x3bd, 25, 0x39a);
    XorIs(0x3b2, 0x0, 0x3b2);
    LinkIs(0x39a, 0x3b2, 25, 0x0);
    ChainIs(0xde, 0xeb, 0x54, 0x30c, 0x3bd, 0x3b2, 25, 0x3ef, 0x5e, 0x50, 0x39a);
    WordAt(0x3d4233dd, 0x358, 25);
  }

  lemma Root25Word4()
    ensures Ev(0x2a1462b3, 25) == Raise(0xbf, 6 * 25)
  {
    Word4();
    hide X, S, Emb, Raise, Chain, Link;
    XorIs(0xea, 0x117, 0x1fd);
    LinkIs(0xbf, 0xea, 25, 0x117);
    XorIs(0x1, 0x396, 0x397);
    LinkIs(0x117, 0x1, 25, 0x396);
    XorIs(0x358, 0x334, 0x6c);
    LinkIs(0x396, 0x358, 25, 0x334);
    XorIs(0x3e7, 0x360, 0x87);
    LinkIs(0x334, 0x3e7, 25, 0x360);
    XorIs(0xea, 0x100, 0x1ea);
    LinkIs(0x360, 0xea, 25, 0x100);
    XorIs(0xb0, 0x0, 0xb0);
    LinkIs(0x100, 0xb0, 25, 0x0);
    ChainIs(0x117, 0x1, 0x358, 0x3e7, 0xea, 0xb0, 25, 0x396, 0x334, 0x360, 0x100);
    WordAt(0x2a1462b3, 0xbf, 25);
  }

  lemma Root26Word0()
    ensures Ev(0x3b6a57b2, 26) == Raise(0x1, 6 * 26)
  {
    Word0();
    hide X, S, Emb, Raise, Chain, Link;
    XorIs(0x3b2, 0x317, 0xa5);
    LinkIs(0x1, 0x3b2, 26, 0x317);
    XorIs(0xe5, 0x28, 0xcd);
    LinkIs(0x317, 0xe5, 26, 0x28);
    XorIs(0xeb, 0xcc, 0x27);
    LinkIs(0x28, 0xeb, 26, 0xcc);
    XorIs(0xea, 0x29d, 0x277);
    LinkIs(0xcc, 0xea, 26, 0x29d);
    XorIs(0x3b2, 0x3ee, 0x5c);
    LinkIs(0x29d, 0x3b2, 26, 0x3ee);
    XorIs(0xb1, 0x0, 0xb1);
    LinkIs(0x3ee, 0xb1, 26, 0x0);
    ChainIs(0x317, 0xe5, 0xeb, 0xea, 0x3b2, 0xb1, 26, 0x28, 0xcc, 0x29d, 0x3ee);
    WordAt(0x3b6a57b2, 0x1, 26);
  }

  lemma Root26Word1()
    ensures Ev(0x26508e6d, 26) == Raise(0xe, 6 * 26)
  {
    Word1();
    hide X, S, Emb, Raise, Chain, Link;
    XorIs(0xb0, 0x365, 0x3d5);
    LinkIs(0xe, 0xb0, 26, 0x365);
    XorIs(0x55, 0x1b0, 0x1e5);
    LinkIs(0x365, 0x55, 26, 0x1b0);
    XorIs(0x1, 0x1eb, 0x1ea);
    LinkIs(0x1b0, 0x1, 26, 0x1eb);
    XorIs(0xf, 0x4f, 0x40);
    LinkIs(0x1eb, 0xf, 26, 0x4f);
    XorIs(0xb0, 0x398, 0x328);
    LinkIs(0x4f, 0xb0, 26, 0x398);
    XorIs(0x30d, 0x0, 0x30d);
    LinkIs(0x398, 0x30d, 26, 0x0);
    ChainIs(0x365, 0x55, 0x1, 0xf, 0xb0, 0x30d, 26, 0x1b0, 0x1eb, 0x4f, 0x398);
    WordAt(0x26508e6d, 0xe, 26);
  }

  lemma Root26Word2()
    ensures Ev(0x1ea119fa, 26) == Raise(0x54, 6 * 26)
  {
    Word2();
    hide X, S, Emb, Raise, Chain, Link;
    XorIs(0x303, 0x1d9, 0x2da);
    LinkIs(0x54, 0x303, 26, 0x1d9);
    XorIs(0x356, 0x266, 0x130);
    LinkIs(0x1d9, 0x356, 26, 0x266);
    XorIs(0xe, 0x164, 0x16a);
    LinkIs(0x266, 0xe, 26, 0x164);
    XorIs(0x5a, 0x3da, 0x380);
    LinkIs(0x164, 0x5a, 26, 0x3da);
    XorIs(0x303, 0x11c, 0x21f);
    LinkIs(0x3da, 0x303, 26, 0x11c);
    XorIs(0x3e9, 0x0, 0x3e9);
    LinkIs(0x11c, 0x3e9, 26, 0x0);
    ChainIs(0x1d9, 0x356, 0xe, 0x5a, 0x303, 0x3e9, 26, 0x266, 0x164, 0x3da, 0x11c);
    WordAt(0x1ea119fa, 0x54, 26);
  }

  lemma Root26Word3()
    ensures Ev(0x3d4233dd, 26) == Raise(0x358, 6 * 26)
  {
    Word3();
    hide X, S, Emb, Raise, Chain, Link;
    XorIs(0x3bd, 0x58, 0x3e5);
    LinkIs(0x358, 0x3bd, 26, 0x58);
    XorIs(0xeb, 0xae, 0x45);
    LinkIs(0x58, 0xeb, 26, 0xae);
    XorIs(0x54, 0x31d, 0x349);
    LinkIs(0xae, 0x54, 26, 0x31d);
    XorIs(0x30c, 0x280, 0x18c);
    LinkIs(0x31d, 0x30c, 26, 0x280);
    XorIs(0x3bd, 0x1cd, 0x270);
    LinkIs(0x280, 0x3bd, 26, 0x1cd);
    XorIs(0x3b2, 0x0, 0x3b2);
    LinkIs(0x1cd, 0x3b2, 26, 0x0);
    ChainIs(0x58, 0xeb, 0x54, 0x30c, 0x3bd, 0x3b2, 26, 0xae, 0x31d, 0x280, 0x1cd);
    WordAt(0x3d4233dd, 0x358, 26);
  }

  lemma Root26Word4()
    ensures Ev(0x2a1462b3, 26) == Raise(0xbf, 6 * 26)
  {
    Word4();
    hide X, S, Emb, Raise, Chain, Link;
    XorIs(0xea, 0x310, 0x3fa);
    LinkIs(0xbf, 0xea, 26, 0x310);
    XorIs(0x1, 0x3b7, 0x3b6);
    LinkIs(0x310, 0x1, 26, 0x3b7);
    XorIs(0x358, 0x309, 0x51);
    LinkIs(0x3b7, 0x358, 26, 0x309);
    XorIs(0x3e7, 0xe9, 0x30e);
    LinkIs(0x309, 0x3e7, 26, 0xe9);
    XorIs(0xea, 0x80, 0x6a);
    LinkIs(0xe9, 0xea, 26, 0x80);
    XorIs(0xb0, 0x0, 0xb0);
    LinkIs(0x80, 0xb0, 26, 0x0);
    ChainIs(0x310, 0x1, 0x358, 0x3e7, 0xea, 0xb0, 26, 0x3b7, 0x309, 0xe9, 0x80);
    WordAt(0x2a1462b3, 0xbf, 26);
  }

  lemma XorIs(a: bv32, b: bv32, c: bv32)
    requires a ^ b == c
    ensures X(a, b) == c
  {
  }

  /** The five reduction words have, at each root, the value of x^6 times the bit they stand for. */
  lemma RootWords(k: nat)
    requires Root(k)
    ensures Ev(0x3b6a57b2, k) == Raise(0x1, 6 * k) && Ev(0x26508e6d, k) == Raise(0xe, 6 * k)
    ensures Ev(0x1ea119fa, k) == Raise(0x54, 6 * k) && Ev(0x3d4233dd, k) == Raise(0x358, 6 * k)
    ensures Ev(0x2a1462b3, k) == Raise(0xbf, 6 * k)
  {
    hide Ev, Raise;
    if k == 24 {
      Root24Word0();
      Root24Word1();
      Root24Word2();
      Root24Word3();
      Root24Word4();
    } else if k == 25 {
      Root25Word0();
      Root25Word1();
      Root25Word2();
      Root25Word3();
      Root25Word4();
    } else {
      Root26Word0();
      Root26Word1();
      Root26Word2();
      Root26Word3();
      Root26Word4();
    }
  }

  lemma EvSelect(b: bool, w: bv32, z: bv32, k: nat, n: nat)
    requires Ev(w, k) == Raise(z, n)
    ensures Ev(Select(b, w), k) == Raise(Select(b, z), n)
  {
    ZeroSymbolIn();
    hide Ev, Raise, Emb;
    EvConstant(0, k);
    EmbIn(0);
    RaiseZero(n);
  }

  lemma ZeroSymbolIn()
    ensures (0 as bv32) < 32
  {
  }

  lemma EvFive(a: bv32, b: bv32, c: bv32, d: bv32, e: bv32, k: nat)
    ensures Ev(Five(a, b, c, d, e), k) == Five(Ev(a, k), Ev(b, k), Ev(c, k), Ev(d, k), Ev(e, k))
  {
    hide X, Ev;
    EvXor(a, b, k);
    EvXor(X(a, b), c, k);
    EvXor(X(X(a, b), c), d, k);
    EvXor(X(X(X(a, b), c), d), e, k);
  }

  lemma RaiseFive(a: bv32, b: bv32, c: bv32, d: bv32, e: bv32, n: nat)
    requires In(a) && In(b) && In(c) && In(d) && In(e)
    ensures Raise(Five(a, b, c, d, e), n) == Five(Raise(a, n), Raise(b, n), Raise(c, n), Raise(d, n), Raise(e, n))
  {
    hide X, In, Raise;
    RaiseXor(a, b, n);
    RaiseXor(X(a, b), c, n);
    RaiseXor(X(X(a, b), c), d, n);
    RaiseXor(X(X(X(a, b), c), d), e, n);
  }

  lemma SelectIn(b: bool)
    ensures In(Select(b, 0x1)) && In(Select(b, 0xe)) && In(Select(b, 0x54)) && In(Select(b, 0x358))
    ensures In(Select(b, 0xbf))
  {
  }

  lemma WrapAt(b0: bool, b1: bool, b2: bool, b3: bool, b4: bool, k: nat)
    requires Root(k)
    ensures Ev(Wrap(b0, b1, b2, b3, b4), k) == Raise(Pick(b0, b1, b2, b3, b4), 6 * k)
  {
    hide X, Ev, Raise, Five, Select, In;
    RootWords(k);
    EvSelect(b0, 0x3b6a57b2, 0x1, k, 6 * k);
    SelectIn(b0);
    EvSelect(b1, 0x26508e6d, 0xe, k, 6 * k);
    SelectIn(b1);
    EvSelect(b2, 0x1ea119fa, 0x54, k, 6 * k);
    SelectIn(b2);
    EvSelect(b3, 0x3d4233dd, 0x358, k, 6 * k);
    SelectIn(b3);
    EvSelect(b4, 0x2a1462b3, 0xbf, k, 6 * k);
    SelectIn(b4);
    EvFive(Select(b0, 0x3b6a57b2), Select(b1, 0x26508e6d), Select(b2, 0x1ea119fa), Select(b3, 0x3d4233dd),
           Select(b4, 0x2a1462b3), k);
    RaiseFive(Select(b0, 0x1), Select(b1, 0xe), Select(b2, 0x54), Select(b3, 0x358), Select(b4, 0xbf), 6 * k);
  }

  lemma ReduceAt(t: bv32, k: nat)
    requires Root(k)
    ensures Ev(Reduce(t), k) == Raise(Emb(t), 6 * k)
  {
    hide Ev, Raise, Has, Wrap, Pick;
    WrapAt(Has(t, 1), Has(t, 2), Has(t, 4), Has(t, 8), Has(t, 16), k);
  }

  lemma SymbolsUp(c: bv32)
    requires Small(c)
    ensures S(Up(c), 0) == 0 && S(Up(c), 1) == S(c, 0) && S(Up(c), 2) == S(c, 1) && S(Up(c), 3) == S(c, 2)
    ensures S(Up(c), 4) == S(c, 3) && S(Up(c), 5) == S(c, 4) && Top(c) == S(c, 5)
  {
  }

  /** Moving up by one symbol multiplies by the root, but for what leaves at the top. */
  lemma UpAt(c: bv32, k: nat)
    requires Small(c)
    ensures Raise(Ev(c, k), k) == X(Raise(Emb(Top(c)), 6 * k), Ev(Up(c), k))
  {
    SymbolsUp(c);
    SymbolsIn(c);
    EmbIn(0);
    ZeroIn();
    hide X, S, Emb, In, Raise, Link, Up, Top, Small;
    var a, b, c3, d, e, f := Emb(S(c, 5)), Emb(S(c, 4)), Emb(S(c, 3)), Emb(S(c, 2)), Emb(S(c, 1)), Emb(S(c, 0));
    LinkNone(Ev(c, k), k);
    LinkDef(a, b, k);
    assert Raise(Ev(c, k), k) == Chain(X(Raise(a, k), b), c3, d, e, f, 0, k);
    hide Chain;
    RaiseIn(a, k);
    ChainXor(Raise(a, k), 0, 0, 0, 0, 0, b, c3, d, e, f, 0, k);
    XorLaws(c3);
    XorLaws(d);
    XorLaws(e);
    XorLaws(f);
    XorLaws(0);
    ChainNone(Raise(a, k), k);
    RaiseAdd(a, k, 5 * k);
  }

  lemma LinkDef(u: bv32, a: bv32, k: nat)
    ensures Link(u, a, k) == X(Raise(u, k), a)
  {
  }

  /** At each root, a step multiplies the value by the root and adds the symbol: the generator vanishes there. */
  lemma StepAt(c: bv32, v: bv8, k: nat)
    requires Root(k) && Small(c) && v < 32
    ensures Ev(Step(c, Widen(v)), k) == X(Raise(Ev(c, k), k), Emb(Widen(v)))
  {
    WidenSmall(v);
    hide X, Ev, Raise, Emb, Reduce, Up, Top, Widen, Small;
    UpAt(c, k);
    ReduceAt(Top(c), k);
    EvConstant(Widen(v), k);
    EvXor(Up(c), Widen(v), k);
    EvXor(X(Up(c), Widen(v)), Reduce(Top(c)), k);
    var p, q, r := Ev(Up(c), k), Emb(Widen(v)), Raise(Emb(Top(c)), 6 * k);
    XorBack(r, p);
    XorAssoc(p, r, q);
    XorBack(r, q);
    XorAssoc(p, q, r);
  }

  // ----- three errors -----

  lemma {:induction false} ZerosAt(c: bv32, n: nat, k: nat)
    requires Root(k) && Small(c)
    ensures Ev(PolyFrom(c, Zeros(n)), k) == Raise(Ev(c, k), n * k)
    decreases n
  {
    hide Step, Widen, Small, Ev;
    if n == 0 {
      assert 0 * k == 0;
    } else {
      assert Zeros(n)[1..] == Zeros(n - 1);
      hide Raise;
      StepZeroAt(c, k);
      StepSmall(c, 0);
      ZerosAt(Step(c, Widen(0)), n - 1, k);
      RaiseAdd(Ev(c, k), k, (n - 1) * k);
      assert k + (n - 1) * k == n * k;
    }
  }

  lemma StepZeroAt(c: bv32, k: nat)
    requires Root(k) && Small(c)
    ensures Ev(Step(c, Widen(0)), k) == Raise(Ev(c, k), k)
  {
    WidenZero();
    EmbIn(0);
    hide X, Ev, Raise, Emb, Step, Widen, Small;
    StepAt(c, 0, k);
    XorLaws(Raise(Ev(c, k), k));
  }

  lemma WidenZero()
    ensures Widen(0) == 0
  {
  }

  lemma PolyCons(c: bv32, d: bv8, v: seq<bv8>)
    ensures PolyFrom(c, [d] + v) == PolyFrom(Step(c, Widen(d)), v)
  {
    hide Step, Widen;
    assert ([d] + v)[1..] == v;
  }

  lemma PolyConsSmall(c: bv32, d: bv8, n: nat)
    ensures Small(PolyFrom(Step(c, Widen(d)), Zeros(n)))
  {
    hide Step, Widen, Small, PolyFrom;
    StepSmall(c, d);
    PolySmall(Step(c, Widen(d)), Zeros(n));
  }

  /** The three errors with what lies between and after them. */
  function Errors(d: bv8, p: nat, e: bv8, q: nat, f: bv8, after: nat): seq<bv8> {
    [d] + (Zeros(p) + ([e] + (Zeros(q) + ([f] + Zeros(after)))))
  }

  /** The value of three errors at a root, with n and m the distances of the first two from the last. */
  function ThreeAt(d: bv32, m: nat, e: bv32, n: nat, f: bv32, k: nat): bv32 {
    X(X(Raise(d, m * k), Raise(e, n * k)), f)
  }

  lemma ErrorsAt(d: bv8, p: nat, e: bv8, q: nat, f: bv8, after: nat, k: nat)
    requires Root(k) && d < 32 && e < 32 && f < 32
    ensures Ev(PolyFrom(0, Errors(d, p, e, q, f, after)), k)
            == Raise(ThreeAt(Emb(Widen(d)), p + q + 2, Emb(Widen(e)), q + 1, Emb(Widen(f)), k), after * k)
  {
    SmallZero();
    hide Step, Widen, Small, PolyFrom, Ev, X, Emb, Raise;
    var tail2 := [f] + Zeros(after);
    var tail1 := [e] + (Zeros(q) + tail2);
    PolyCons(0, d, Zeros(p) + tail1);
    var c1 := Step(0, Widen(d));
    StepSmall(0, d);
    PolyConcat(c1, Zeros(p), tail1);
    var c2 := PolyFrom(c1, Zeros(p));
    PolySmall(c1, Zeros(p));
    PolyCons(c2, e, Zeros(q) + tail2);
    var c3 := Step(c2, Widen(e));
    StepSmall(c2, e);
    PolyConcat(c3, Zeros(q), tail2);
    var c4 := PolyFrom(c3, Zeros(q));
    PolySmall(c3, Zeros(q));
    PolyCons(c4, f, Zeros(after));
    StepSmall(c4, f);
    FirstAt(d, k);
    ZerosAt(c1, p, k);
    StepAt(c2, e, k);
    ZerosAt(c3, q, k);
    StepAt(c4, f, k);
    ZerosAt(Step(c4, Widen(f)), after, k);
    EmbIn(Widen(d));
    EmbIn(Widen(e));
    Collect(Emb(Widen(d)), p * k, Emb(Widen(e)), q * k, k, Ev(c2, k), Ev(c3, k));
    Multiples(p, q, k);
  }

  lemma SmallZero()
    ensures Small(0)
  {
  }

  lemma FirstAt(d: bv8, k: nat)
    requires Root(k) && d < 32
    ensures Ev(Step(0, Widen(d)), k) == Emb(Widen(d))
  {
    SmallZero();
    ZeroSymbolIn();
    hide X, Ev, Raise, Emb, Step, Widen, Small;
    StepAt(0, d, k);
    EvConstant(0, k);
    EmbIn(0);
    RaiseZero(k);
    XorLaws(Emb(Widen(d)));
  }

  lemma Twice(d: bv32, m: nat, n: nat, l: nat)
    requires l == m + n
    ensures Raise(Raise(d, m), n) == Raise(d, l)
  {
    hide Raise;
    RaiseAdd(d, m, n);
  }

  lemma Gather(a: bv32, e: bv32, l: nat)
    requires In(a) && In(e)
    ensures Raise(X(a, e), l) == X(Raise(a, l), Raise(e, l))
  {
    hide *;
    RaiseXor(a, e, l);
  }

  lemma Collect(d: bv32, p: nat, e: bv32, q: nat, k: nat, a: bv32, u: bv32)
    requires In(d) && In(e) && a == Raise(d, p) && u == X(Raise(a, k), e)
    ensures Raise(Raise(u, q), k) == X(Raise(d, p + k + (q + k)), Raise(e, q + k))
  {
    hide *;
    var b, l := Raise(d, p + k), q + k;
    Twice(d, p, k, p + k);
    RaiseIn(d, p + k);
    Twice(u, q, k, l);
    Gather(b, e, l);
    Twice(d, p + k, l, p + k + l);
  }

  lemma Multiples(p: nat, q: nat, k: nat)
    ensures p * k + k + (q * k + k) == (p + q + 2) * k && q * k + k == (q + 1) * k
  {
  }

  /** What is left of three equations once the last term is taken out of them. */
  lemma TakeOutLast(d: bv32, m: nat, e: bv32, n: nat, f: bv32)
    requires In(d) && In(e)
    requires X(X(d, e), f) == 0 && X(X(Raise(d, m), Raise(e, n)), f) == 0
    requires X(X(Raise(d, 2 * m), Raise(e, 2 * n)), f) == 0
    ensures var w := X(Raise(e, n), e); In(w) && Raise(w, m) == Raise(w, n)
  {
    hide *;
    var a, b, c, g := Raise(d, m), Raise(e, n), Raise(d, 2 * m), Raise(e, 2 * n);
    RaiseIn(d, m);
    RaiseIn(e, n);
    Twice(d, m, m, 2 * m);
    Twice(e, n, n, 2 * n);
    Cancel(a, b, f, d, e);
    Cancel(c, g, f, a, b);
    RaiseXor(a, d, m);
    RaiseXor(b, e, n);
    assert Raise(X(a, d), m) == X(c, a);
    assert Raise(X(b, e), n) == X(g, b);
  }

  /** Two different powers of e agree on zero only. */
  lemma PowersDiffer(w: bv32, m: nat, n: nat)
    requires In(w) && n < m < 1023 && Raise(w, m) == Raise(w, n)
    ensures w == 0
  {
    hide *;
    var g: nat := m - n;
    RaiseAdd(w, g, n);
    RaiseIn(w, g);
    RaiseInjective(Raise(w, g), w, n);
    Free(w, g);
  }

  /** Three terms that vanish at three roots in a row: the middle one is zero. */
  lemma Eliminate(d: bv32, m: nat, e: bv32, n: nat, f: bv32)
    requires In(d) && In(e) && 0 < n < m < 1023
    requires X(X(d, e), f) == 0 && X(X(Raise(d, m), Raise(e, n)), f) == 0
    requires X(X(Raise(d, 2 * m), Raise(e, 2 * n)), f) == 0
    ensures e == 0
  {
    hide *;
    TakeOutLast(d, m, e, n, f);
    PowersDiffer(X(Raise(e, n), e), m, n);
    SameIsZero(Raise(e, n), e);
    Free(e, n);
  }

  /** Two sums with a common last term that both vanish. */
  lemma Cancel(a: bv32, b: bv32, f: bv32, c: bv32, d: bv32)
    requires X(X(a, b), f) == 0 && X(X(c, d), f) == 0
    ensures X(a, c) == X(b, d)
  {
    hide X;
    SameIsZero(X(a, b), f);
    SameIsZero(X(c, d), f);
    Regroup2(a, b, c, d);
    XorLaws(f);
    SameIsZero(X(a, c), X(b, d));
  }

  lemma AtThreeRoots(d: bv32, m: nat, e: bv32, n: nat, f: bv32)
    requires In(d) && In(e) && In(f) && 0 < n < m < 1023
    requires ThreeAt(d, m, e, n, f, 24) == 0 && ThreeAt(d, m, e, n, f, 25) == 0 && ThreeAt(d, m, e, n, f, 26) == 0
    ensures e == 0
  {
    hide X, In, Raise;
    var a, b := Raise(d, m * 24), Raise(e, n * 24);
    RaiseIn(d, m * 24);
    RaiseIn(e, n * 24);
    RaiseAdd(d, m * 24, m);
    RaiseAdd(d, m * 24, 2 * m);
    RaiseAdd(e, n * 24, n);
    RaiseAdd(e, n * 24, 2 * n);
    Eliminate(a, m, b, n, f);
    RaiseToZero(e, n * 24);
  }

  /** Three symbols that are not zero, the outer ones up to 1022 places apart, leave a remainder that is not zero. */
  lemma ThreeShow(before: nat, d: bv8, p: nat, e: bv8, q: nat, f: bv8, after: nat)
    requires 0 < d < 32 && 0 < e < 32 && 0 < f < 32 && p + q + 2 <= 1022
    ensures PolyFrom(0, Zeros(before) + Errors(d, p, e, q, f, after)) != 0
  {
    hide PolyFrom, Errors, Ev, X, Emb, Raise, In, Widen;
    PolyConcat(0, Zeros(before), Errors(d, p, e, q, f, after));
    ZerosStayZero(before);
    var r := PolyFrom(0, Errors(d, p, e, q, f, after));
    if r == 0 {
      VanishesAt(d, p, e, q, f, after, 24);
      VanishesAt(d, p, e, q, f, after, 25);
      VanishesAt(d, p, e, q, f, after, 26);
      EmbIn(Widen(d));
      EmbIn(Widen(e));
      EmbIn(Widen(f));
      AtThreeRoots(Emb(Widen(d)), p + q + 2, Emb(Widen(e)), q + 1, Emb(Widen(f)));
      SymbolIsNotZero(e);
    }
  }

  lemma SymbolIsNotZero(e: bv8)
    requires 0 < e < 32
    ensures Emb(Widen(e)) != 0
  {
    WidenKeeps(e);
    hide Emb, Widen;
    if Emb(Widen(e)) == 0 {
      EmbZero(Widen(e));
    }
  }

  lemma WidenKeeps(e: bv8)
    requires 0 < e < 32
    ensures 0 < Widen(e) < 32
  {
  }

  lemma VanishesAt(d: bv8, p: nat, e: bv8, q: nat, f: bv8, after: nat, k: nat)
    requires Root(k) && d < 32 && e < 32 && f < 32 && PolyFrom(0, Errors(d, p, e, q, f, after)) == 0
    ensures ThreeAt(Emb(Widen(d)), p + q + 2, Emb(Widen(e)), q + 1, Emb(Widen(f)), k) == 0
  {
    ZeroSymbolIn();
    hide PolyFrom, Errors, Ev, X, Emb, Raise, In, Widen;
    ErrorsAt(d, p, e, q, f, after, k);
    EvConstant(0, k);
    EmbIn(0);
    var a, b, c := Emb(Widen(d)), Emb(Widen(e)), Emb(Widen(f));
    EmbIn(Widen(d));
    EmbIn(Widen(e));
    EmbIn(Widen(f));
    RaiseIn(a, (p + q + 2) * k);
    RaiseIn(b, (q + 1) * k);
    XorIn(Raise(a, (p + q + 2) * k), Raise(b, (q + 1) * k));
    XorIn(X(Raise(a, (p + q + 2) * k), Raise(b, (q + 1) * k)), c);
    RaiseToZero(ThreeAt(a, p + q + 2, b, q + 1, c, k), after * k);
  }

  /** Lists that differ in three symbols, the outer ones up to 1022 places apart, have different checksums. */
  lemma ThreeDetected(v: seq<bv8>, w: seq<bv8>, i: nat, j: nat, l: nat)
    requires |v| == |w| && i < j < l < |v| && l - i <= 1022
    requires forall m | 0 <= m < |v| && m != i && m != j && m != l :: v[m] == w[m]
    requires v[i] != w[i] && v[j] != w[j] && v[l] != w[l]
    requires v[i] < 32 && w[i] < 32 && v[j] < 32 && w[j] < 32 && v[l] < 32 && w[l] < 32
    ensures PolyMod(v) != PolyMod(w)
  {
    hide X, X8, PolyFrom;
    var e := Xor(v, w);
    forall m | 0 <= m < |v| ensures e[m] == 0 <==> v[m] == w[m] {
      XorTwice(v[m], w[m]);
    }
    XorTwice(v[i], w[i]);
    XorTwice(v[j], w[j]);
    XorTwice(v[l], w[l]);
    assert e == Zeros(i) + Errors(e[i], j - i - 1, e[j], l - j - 1, e[l], |v| - l - 1);
    ThreeShow(i, e[i], j - i - 1, e[j], l - j - 1, e[l], |v| - l - 1);
    XorDifference(v, w);
    PolyXor(1, 0, v, e);
    XorLaws(1);
    XorUnchanged(PolyFrom(1, v), PolyFrom(0, e));
  }
}
