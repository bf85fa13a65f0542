/**
 The field of 1024 elements, as far as the checksum of Bech32 needs it: multiplication by one element e, sums,
 and that the powers of e come back to 1 after 1023 steps and not before.
 */
module Bech32Field {
  import opened Arithmetic
  import opened Bech32Checksum

  // ----- the field of 1024 elements, and multiplication by e -----

  predicate In(u: bv32) { u < 1024 }

  /** Times e, where e^10 is e^8 + e^5 + e + 1. */
  function T(u: bv32): bv32 { ((u & 0x1ff) << 1) ^ (if u & 0x200 != 0 then 0x123 else 0) }

  lemma TIn(u: bv32)
    ensures In(T(u)) && T(0) == 0
  {
  }

  lemma TZero(u: bv32)
    requires In(u) && T(u) == 0
    ensures u == 0
  {
  }

  function Lower(u: bv32): bv32 { (u & 0x1ff) << 1 }

  lemma TParts(u: bv32)
    ensures T(u) == X(Lower(u), Select(Has(u, 0x200), 0x123))
  {
  }

  lemma LowerXor(u: bv32, v: bv32)
    ensures Lower(X(u, v)) == X(Lower(u), Lower(v))
  {
  }

  lemma TopXor(u: bv32, v: bv32)
    ensures Has(X(u, v), 0x200) == (Has(u, 0x200) != Has(v, 0x200))
  {
  }

  lemma XorIn(u: bv32, v: bv32)
    requires In(u) && In(v)
    ensures In(X(u, v))
  {
  }

  lemma TXor(u: bv32, v: bv32)
    requires In(u) && In(v)
    ensures T(X(u, v)) == X(T(u), T(v)) && In(X(u, v))
  {
    hide T, X, In, Lower, Has, Select;
    TParts(u);
    TParts(v);
    TParts(X(u, v));
    LowerXor(u, v);
    TopXor(u, v);
    SelectXor(Has(u, 0x200), Has(v, 0x200), 0x123);
    Regroup2(Lower(u), Select(Has(u, 0x200), 0x123), Lower(v), Select(Has(v, 0x200), 0x123));
    XorIn(u, v);
  }

  /** Times a power of e. */
  function Raise(u: bv32, n: nat): bv32 {
    if n == 0 then u else T(Raise(u, n - 1))
  }

  lemma {:induction false} RaiseIn(u: bv32, n: nat)
    requires In(u)
    ensures In(Raise(u, n))
  {
    hide T, In;
    if n > 0 {
      RaiseIn(u, n - 1);
      TIn(Raise(u, n - 1));
    }
  }

  lemma {:induction false} RaiseZero(n: nat)
    ensures Raise(0, n) == 0
  {
    hide T;
    if n > 0 {
      RaiseZero(n - 1);
      TIn(0);
    }
  }

  lemma {:induction false} RaiseXor(u: bv32, v: bv32, n: nat)
    requires In(u) && In(v)
    ensures Raise(X(u, v), n) == X(Raise(u, n), Raise(v, n)) && In(X(u, v))
  {
    hide T, In, X;
    TXor(u, v);
    if n > 0 {
      RaiseXor(u, v, n - 1);
      RaiseIn(u, n - 1);
      RaiseIn(v, n - 1);
      TXor(Raise(u, n - 1), Raise(v, n - 1));
    }
  }

  lemma {:induction false} RaiseAdd(u: bv32, m: nat, n: nat)
    ensures Raise(u, m + n) == Raise(Raise(u, m), n)
    decreases n
  {
    hide T;
    if n > 0 {
      RaiseAdd(u, m, n - 1);
    }
  }

  lemma RaiseSwap(u: bv32, m: nat, n: nat)
    ensures Raise(Raise(u, m), n) == Raise(Raise(u, n), m)
  {
    hide Raise;
    RaiseAdd(u, m, n);
    RaiseAdd(u, n, m);
  }

  lemma {:induction false} RaiseToZero(u: bv32, n: nat)
    requires In(u) && Raise(u, n) == 0
    ensures u == 0
  {
    hide T, In;
    if n > 0 {
      RaiseIn(u, n - 1);
      TZero(Raise(u, n - 1));
      RaiseToZero(u, n - 1);
    }
  }

  lemma SameIsZero(u: bv32, v: bv32)
    ensures X(u, v) == 0 <==> u == v
  {
    hide X;
    XorBack(u, v);
    XorLaws(v);
  }

  lemma RaiseInjective(u: bv32, v: bv32, n: nat)
    requires In(u) && In(v) && Raise(u, n) == Raise(v, n)
    ensures u == v
  {
    hide Raise, In, X;
    RaiseXor(u, v, n);
    SameIsZero(Raise(u, n), Raise(v, n));
    RaiseToZero(X(u, v), n);
    SameIsZero(u, v);
  }

  // ----- powers of e, worked out -----

  function N11(u: bv32): bv32 { T(T(T(T(T(T(T(T(T(T(T(u))))))))))) }

  function N24(u: bv32): bv32 { T(T(N11(N11(u)))) }

  function N33(u: bv32): bv32 { N11(N11(N11(u))) }

  lemma By11(u: bv32)
    ensures Raise(u, 11) == N11(u)
  {
    hide T;
    assert Raise(u, 1) == T(u);
    assert Raise(u, 2) == T(Raise(u, 1));
    assert Raise(u, 4) == T(T(Raise(u, 2)));
    assert Raise(u, 6) == T(T(Raise(u, 4)));
    assert Raise(u, 8) == T(T(Raise(u, 6)));
    assert Raise(u, 10) == T(T(Raise(u, 8)));
  }

  lemma By24(u: bv32)
    ensures Raise(u, 24) == N24(u)
  {
    hide T, N11;
    By11(u);
    By11(N11(u));
    RaiseAdd(u, 11, 11);
    assert Raise(u, 24) == T(T(Raise(u, 22)));
  }

  lemma By33(u: bv32)
    ensures Raise(u, 33) == N33(u)
  {
    hide Raise, N11;
    By11(u);
    By11(N11(u));
    By11(N11(N11(u)));
    RaiseAdd(u, 11, 11);
    RaiseAdd(u, 22, 11);
  }

  lemma Hop(n: nat, c: bv32, m: nat, d: bv32)
    requires Raise(1, n) == c && Raise(c, m) == d
    ensures Raise(1, n + m) == d
  {
    hide Raise;
    RaiseAdd(1, n, m);
  }

  lemma HopOn(n: nat, c: bv32, d: bv32)
    requires Raise(1, n) == c && N33(c) == d
    ensures Raise(1, n + 33) == d
  {
    hide Raise, N33;
    By33(c);
    Hop(n, c, 33, d);
  }

  lemma ShortHop(n: nat, c: bv32, d: bv32)
    requires Raise(1, n) == c && N11(c) == d
    ensures Raise(1, n + 11) == d
  {
    hide Raise, N11;
    By11(c);
    Hop(n, c, 11, d);
  }

  lemma Steps(n: nat, c: bv32)
    requires Raise(1, n) == c
    ensures Raise(1, n + 5) == T(T(T(T(T(c))))) && Raise(1, n + 8) == T(T(T(T(T(T(T(T(c))))))))
  {
    hide T;
    assert Raise(1, n + 2) == T(T(c));
    assert Raise(1, n + 4) == T(T(Raise(1, n + 2)));
    assert Raise(1, n + 6) == T(T(Raise(1, n + 4)));
  }

  lemma PowersTo165()
    ensures Raise(1, 33) == 0xb0
    ensures Raise(1, 66) == 0x3bc
    ensures Raise(1, 165) == 0x3e8
  {
    hide Raise;
    PowerZero();
    HopOn(0, 0x1, 0xb0);
    HopOn(33, 0xb0, 0x3bc);
    HopOn(66, 0x3bc, 0xeb);
    HopOn(99, 0xeb, 0x3b2);
    HopOn(132, 0x3b2, 0x3e8);
  }

  lemma PowersTo330()
    requires Raise(1, 165) == 0x3e8
    ensures Raise(1, 330) == 0x30d
  {
    hide Raise;
    HopOn(165, 0x3e8, 0x356);
    HopOn(198, 0x356, 0x3e9);
    HopOn(231, 0x3e9, 0x3e6);
    HopOn(264, 0x3e6, 0x55);
    HopOn(297, 0x55, 0x30d);
  }

  lemma PowersTo495()
    requires Raise(1, 330) == 0x30d
    ensures Raise(1, 396) == 0xe5
    ensures Raise(1, 429) == 0xb1
    ensures Raise(1, 495) == 0x357
  {
    hide Raise;
    HopOn(330, 0x30d, 0x3e7);
    HopOn(363, 0x3e7, 0xe5);
    HopOn(396, 0xe5, 0xb1);
    HopOn(429, 0xb1, 0x30c);
    HopOn(462, 0x30c, 0x357);
  }

  lemma PowersTo660()
    requires Raise(1, 495) == 0x357
    ensures Raise(1, 660) == 0xf
  {
    hide Raise;
    HopOn(495, 0x357, 0x359);
    HopOn(528, 0x359, 0x5a);
    HopOn(561, 0x5a, 0xbe);
    HopOn(594, 0xbe, 0xbf);
    HopOn(627, 0xbf, 0xf);
  }

  lemma PowerZero()
    ensures Raise(1, 0) == 1
  {
  }

  /** The powers of e that matter: those of its subfields, and what they make when 1 is added. */
  lemma Powers()
    ensures X(Raise(1, 33), 1) == Raise(1, 429)
    ensures X(Raise(1, 93), 1) == Raise(1, 426)
    ensures X(Raise(1, 341), 1) == Raise(1, 682)
  {
    hide Raise;
    PowersTo165();
    PowersTo330();
    PowersTo495();
    PowersTo660();
    ShortHop(66, 0x3bc, 0x33);
    ShortHop(77, 0x33, 0xed);
    Steps(88, 0xed);
    ShortHop(396, 0xe5, 0x374);
    ShortHop(407, 0x374, 0xd9);
    Steps(418, 0xd9);
    ShortHop(330, 0x30d, 0x36);
    ShortHop(660, 0xf, 0x328);
    ShortHop(671, 0x328, 0x37);
  }

  // ----- sums of powers act alike on every element -----

  ghost predicate Sums(u: bv32, a: nat, c: nat) { X(Raise(u, a), u) == Raise(u, c) }

  lemma SumsT(u: bv32, a: nat, c: nat)
    requires In(u) && Sums(u, a, c)
    ensures Sums(T(u), a, c)
  {
    assert T(u) == Raise(u, 1);
    hide T, X, In, Raise;
    RaiseSwap(u, 1, a);
    RaiseSwap(u, 1, c);
    RaiseIn(u, a);
    RaiseXor(Raise(u, a), u, 1);
  }

  lemma SumsXor(u: bv32, v: bv32, a: nat, c: nat)
    requires In(u) && In(v) && Sums(u, a, c) && Sums(v, a, c)
    ensures Sums(X(u, v), a, c)
  {
    hide X, In, Raise;
    RaiseXor(u, v, a);
    RaiseXor(u, v, c);
    Regroup2(Raise(u, a), u, Raise(v, a), v);
  }

  predicate Below(u: bv32, n: nat)
    requires n <= 10
  {
    if n == 0 then u == 0 else if n == 1 then u < 2 else if n == 2 then u < 4 else if n == 3 then u < 8
    else if n == 4 then u < 16 else if n == 5 then u < 32 else if n == 6 then u < 64 else if n == 7 then u < 128
    else if n == 8 then u < 256 else if n == 9 then u < 512 else u < 1024
  }

  /** An element is its lowest bit and e times the rest. */
  lemma LowestBit(u: bv32, n: nat)
    requires 0 < n <= 10 && Below(u, n)
    ensures Below(u >> 1, n - 1) && In(u) && In(u >> 1) && (u & 1 == 0 || u & 1 == 1) && u == X(T(u >> 1), u & 1)
  {
    assert u < 1024;
    BitsAgain(u);
  }

  lemma BitsAgain(u: bv32)
    requires u < 1024
    ensures u == X(T(u >> 1), u & 1) && (u & 1 == 0 || u & 1 == 1)
  {
  }

  /** What holds of 1 holds of every element: e and sums generate them all. */
  lemma {:induction false} SumsAll(u: bv32, n: nat, a: nat, c: nat)
    requires n <= 10 && Below(u, n) && Sums(1, a, c)
    ensures Sums(u, a, c)
    decreases n
  {
    hide X, T, Raise;
    SumsZero(a, c);
    if n > 0 {
      LowestBit(u, n);
      hide Below;
      SumsAll(u >> 1, n - 1, a, c);
      SumsT(u >> 1, a, c);
      TIn(u >> 1);
      SumsXor(T(u >> 1), u & 1, a, c);
    }
  }

  lemma SumsZero(a: nat, c: nat)
    ensures Sums(0, a, c)
  {
    hide X, Raise;
    RaiseZero(a);
    RaiseZero(c);
    XorLaws(0);
  }

  // ----- e acts freely -----

  ghost predicate Fixed(u: bv32, n: nat) { Raise(u, n) == u }

  /** An element fixed by a power whose sum with 1 is a power is zero. */
  lemma FixedIsZero(u: bv32, a: nat, c: nat)
    requires In(u) && Sums(1, a, c) && Fixed(u, a)
    ensures u == 0
  {
    hide X, Raise;
    assert Below(u, 10);
    SumsAll(u, 10, a, c);
    XorLaws(u);
    RaiseToZero(u, c);
  }

  lemma FixedAtEnd(u: bv32)
    requires In(u)
    ensures Fixed(u, 1023)
  {
    hide X, Raise, Sums;
    Powers();
    SumsOne(341, 682);
    assert Below(u, 10);
    SumsAll(u, 10, 341, 682);
    CubeIsOne(u);
  }

  lemma SumsOne(a: nat, c: nat)
    requires X(Raise(1, a), 1) == Raise(1, c)
    ensures Sums(1, a, c)
  {
  }

  lemma CubeIsOne(u: bv32)
    requires In(u) && Sums(u, 341, 682)
    ensures Fixed(u, 1023)
  {
    hide X, In, Raise;
    RaiseAdd(u, 682, 341);
    RaiseAdd(u, 341, 341);
    RaiseIn(u, 341);
    RaiseXor(Raise(u, 341), u, 341);
    XorBack(Raise(u, 341), u);
    XorBack(u, Raise(u, 341));
  }

  lemma {:induction false} FixedTimes(u: bv32, n: nat, k: nat)
    requires Fixed(u, n)
    ensures Fixed(u, n * k)
    decreases k
  {
    if k == 0 {
      assert n * 0 == 0;
    } else {
      hide Raise;
      FixedTimes(u, n, k - 1);
      assert n * k == n * (k - 1) + n;
      RaiseAdd(u, n * (k - 1), n);
    }
  }

  lemma FixedMinus(u: bv32, a: nat, b: nat)
    requires In(u) && Fixed(u, a + b) && Fixed(u, b)
    ensures Fixed(u, a)
  {
    hide Raise;
    RaiseAdd(u, a, b);
    RaiseIn(u, a);
    RaiseInjective(Raise(u, a), u, b);
  }

  ghost predicate Prime(m: nat) { m > 1 && forall j | 2 <= j < m :: m % j != 0 }

  /** Euclid's steps bring a multiple of `d` that fixes `u`, not a multiple of `d * m`, down to `d` itself. */
  lemma {:induction false} FixedDown(u: bv32, d: nat, m: nat, j: nat)
    requires In(u) && Prime(m) && 0 < j < m && Fixed(u, d * j) && Fixed(u, d * m)
    ensures Fixed(u, d)
    decreases j
  {
    hide Fixed;
    if j == 1 {
      assert d * 1 == d;
    } else {
      var q, r := m / j, m % j;
      FixedTimes(u, d * j, q);
      assert m == j * q + r;
      Expand(d, j, q, r);
      FixedMinus(u, d * r, d * j * q);
      FixedDown(u, d, m, r);
    }
  }

  lemma Expand(d: nat, j: nat, q: nat, r: nat)
    ensures d * (j * q + r) == d * r + d * j * q
  {
  }

  lemma FixedByPart(u: bv32, n: nat, d: nat, m: nat)
    requires In(u) && Prime(m) && d * m == 1023 && Fixed(u, n) && n % m != 0
    ensures Fixed(u, d)
  {
    hide Fixed, Prime;
    var q, j := n / m, n % m;
    FixedAtEnd(u);
    FixedTimes(u, n, d);
    FixedTimes(u, 1023, q);
    assert n == m * q + j;
    Expand(d, m, q, j);
    assert n * d == d * n;
    FixedMinus(u, d * j, 1023 * q);
    PrimePositive(m);
    FixedDown(u, d, m, j);
  }

  lemma PrimePositive(m: nat)
    requires Prime(m)
    ensures m > 1
  {
  }

  lemma SmallPrimes()
    ensures Prime(3) && Prime(11) && Prime(31)
  {
    forall j | 2 <= j < 11 ensures 11 % j != 0 {
      Factors(11, j);
    }
    forall j | 2 <= j < 31 ensures 31 % j != 0 {
      Factors(31, j);
    }
  }

  lemma NoProduct(m: nat, j: nat, q: nat)
    requires (m == 11 || m == 31) && j < 6 && j != 1
    ensures j * q != m
  {
    if j == 0 || j == 2 {
      assert j * q == if j == 0 then 0 else q + q;
    } else if j == 3 {
      assert j * q == 3 * q;
    } else if j == 4 {
      assert j * q == 4 * q;
    } else {
      assert j * q == 5 * q;
    }
  }

  /** One of two factors of a number below 36 is below 6. */
  lemma Factors(m: nat, j: nat)
    requires 2 <= j < m && (m == 11 || m == 31)
    ensures m % j != 0
  {
    var q: nat := m / j;
    assert m == j * q + m % j;
    if j < 6 {
      NoProduct(m, j, q);
    } else {
      MulLe(6, j, q);
      Commute(j, q);
      if q == 1 {
        assert j * q == j;
      } else {
        NoProduct(m, q, j);
      }
    }
  }

  lemma NotAll(n: nat)
    requires 0 < n < 1023
    ensures n % 3 != 0 || n % 11 != 0 || n % 31 != 0
  {
  }

  /** Only zero is fixed by a power of e below the 1023rd. */
  lemma Free(u: bv32, n: nat)
    requires In(u) && 0 < n < 1023 && Raise(u, n) == u
    ensures u == 0
  {
    assert Fixed(u, n);
    hide Raise, Fixed, Prime, X, Sums;
    Powers();
    SumsOne(33, 429);
    SumsOne(93, 426);
    SumsOne(341, 682);
    SmallPrimes();
    NotAll(n);
    if n % 3 != 0 {
      FixedByPart(u, n, 341, 3);
      FixedIsZero(u, 341, 682);
    } else if n % 11 != 0 {
      FixedByPart(u, n, 93, 11);
      FixedIsZero(u, 93, 426);
    } else {
      FixedByPart(u, n, 33, 31);
      FixedIsZero(u, 33, 429);
    }
  }
}
