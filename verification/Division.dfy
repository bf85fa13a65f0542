/** The length of a number in bits, and the arithmetic of shift-and-subtract division. */
module Division {
  import opened Powers
  import opened Arithmetic
  import opened Limbs
  import opened Shifts

  /** `n` is the position of the highest bit set plus one, or zero for zero. */
  ghost predicate IsBitLength(v: nat, n: nat) {
    if v == 0 then n == 0 else n > 0 && Pow(2, n - 1) <= v < Pow(2, n)
  }

  /** The highest limb that is not zero decides the length. */
  lemma TopLimb(x: seq<Limb>, pos: nat, t: nat)
    requires pos < |x| && (forall j | pos < j < |x| :: x[j] == 0)
    requires Pow(2, t) <= x[pos] < Pow(2, t + 1)
    ensures IsBitLength(Value(x), 32 * pos + t + 1)
  {
    hide Value, Weight, Pow;
    ValueSplit(x, pos + 1);
    ValueZeros(x[pos + 1..]);
    ValueTakeNext(x, pos);
    ValueBound(x[..pos]);
    Pow2Weight(pos);
    PowAdd(2, t, 32 * pos);
    PowAdd(2, t + 1, 32 * pos);
    PowPositive(2, t);
    PowPositive(2, t + 32 * pos);
    MulLe(Pow(2, t), x[pos], Weight(pos));
    MulLe(x[pos] as int + 1, Pow(2, t + 1), Weight(pos));
    assert (x[pos] as int + 1) * Weight(pos) == x[pos] * Weight(pos) + Weight(pos);
    assert t + 32 * pos == 32 * pos + t + 1 - 1 && t + 1 + 32 * pos == 32 * pos + t + 1;
  }

  /** Below `2^(b + 1)`, bit `b` tells whether the number reaches `2^b`. */
  lemma TopBit(a: nat, b: nat)
    requires a < Pow(2, b + 1)
    ensures Pow(2, b) > 0 && ((a / Pow(2, b)) % 2 == 1 <==> Pow(2, b) <= a)
  {
    PowPositive(2, b);
    var p := Pow(2, b);
    if p <= a {
      DivUnique(1, a - p, p, a);
    } else {
      DivUnique(0, a, p, a);
    }
  }

  lemma LengthBound(v: nat, n: nat, width: nat)
    requires IsBitLength(v, n) && v < Weight(width)
    ensures n <= 32 * width && Pow(2, n) <= Weight(width)
  {
    Pow2Weight(width);
    if n > 32 * width {
      PowMonotone(2, 32 * width, n - 1);
    } else {
      PowMonotone(2, n, 32 * width);
    }
  }

  /** Aligning the divisor: it does not overflow, and twice the aligned divisor exceeds the number. */
  lemma Align(num: nat, div: nat, nb: nat, db: nat, width: nat)
    requires IsBitLength(num, nb) && IsBitLength(div, db) && 0 < db <= nb && num < Weight(width)
    ensures nb - db < 32 * width
    ensures (div * Pow(2, nb - db)) % Weight(width) == div * Pow(2, nb - db)
    ensures num < div * Pow(2, nb - db + 1)
  {
    hide Weight, Pow;
    LengthBound(num, nb, width);
    PowAdd(2, db, nb - db);
    PowAdd(2, db - 1, nb - db + 1);
    PowPositive(2, nb - db);
    AlignArith(div, Pow(2, db), Pow(2, nb - db));
    MulLe(Pow(2, db - 1), div, Pow(2, nb - db + 1));
    ModUnique(div * Pow(2, nb - db), 0, Weight(width), div * Pow(2, nb - db));
  }

  lemma AlignArith(d: nat, e: nat, p: nat)
    requires d < e && p > 0
    ensures d * p < e * p
  {
    MulLe(d + 1, e, p);
    assert (d + 1) * p == d * p + p;
  }

  /** The quotient so far has no bits below `t`. */
  ghost predicate Above(q: seq<Limb>, t: nat) {
    && (forall j | 0 <= j < |q| && j < t / 32 :: q[j] == 0)
    && (t / 32 < |q| ==> exists c: nat :: q[t / 32] == c * Pow(2, t % 32))
  }

  lemma NoBits(q: seq<Limb>, t: nat)
    requires forall j | 0 <= j < |q| :: q[j] == 0
    ensures Above(q, t)
  {
    if t / 32 < |q| {
      assert q[t / 32] == 0 * Pow(2, t % 32);
    }
  }

  lemma Multiples(q: seq<Limb>, shift: nat) returns (c: nat)
    requires Above(q, shift + 1) && shift / 32 < |q|
    ensures q[shift / 32] == c * Pow(2, shift % 32 + 1)
  {
    if shift % 32 == 31 {
      assert (shift + 1) / 32 == shift / 32 + 1;
      c := 0;
    } else {
      assert (shift + 1) / 32 == shift / 32 && (shift + 1) % 32 == shift % 32 + 1;
      c :| q[shift / 32] == c * Pow(2, shift % 32 + 1);
    }
  }

  /** Setting bit `shift` adds its weight to the quotient. */
  lemma SetBit(q: seq<Limb>, shift: nat)
    requires Above(q, shift + 1) && shift / 32 < |q|
    ensures
      var now := Or(q[shift / 32], Pow(2, shift % 32));
      && now < BASE && Value(q[shift / 32 := now]) == Value(q) + Pow(2, shift)
      && Above(q[shift / 32 := now], shift)
  {
    hide Value, Pow, Weight, Factor;
    var at, b := shift / 32, shift % 32;
    var c := Multiples(q, shift);
    SplitPowers(b);
    PowNext(2, b);
    ClearBit(c, Pow(2, b));
    OrBit(q[at], b);
    var now := Or(q[at], Pow(2, b));
    Room(c, Pow(2, b), Pow(2, 32 - b), b);
    assert now == (2 * c + 1) * Pow(2, b);
    ValueUpdate(q, at, now);
    FactorIsPower(shift);
    FactorDef(at, b);
    AboveBelow(q, shift);
  }

  lemma FactorDef(k: nat, s: nat)
    ensures Factor(k, s) == Pow(2, s) * Weight(k)
  {
  }

  lemma ClearBit(c: nat, p: nat)
    requires p > 0
    ensures c * (2 * p) == (2 * c) * p && (c * (2 * p)) / p == 2 * c
  {
    assert c * (2 * p) == (2 * c) * p;
    DivUnique(2 * c, 0, p, c * (2 * p));
  }

  /** An even multiple of `2^b` below `2^32` leaves room for one more. */
  lemma Room(c: nat, p: nat, q: nat, b: nat)
    requires p > 0 && p * q == BASE && c * (2 * p) < BASE && b < 32 && q == Pow(2, 32 - b)
    ensures c * (2 * p) + p < BASE && c * (2 * p) + p == (2 * c + 1) * p
  {
    var half := Pow(2, 31 - b);
    assert q == 2 * half;
    assert p * q == half * (2 * p);
    if c >= half {
      MulLe(half, c, 2 * p);
    } else {
      MulLe(c + 1, half, 2 * p);
      assert (c + 1) * (2 * p) == c * (2 * p) + 2 * p;
    }
    assert (2 * c + 1) * p == (2 * c) * p + p;
  }

  lemma AboveBelow(q: seq<Limb>, shift: nat)
    requires Above(q, shift + 1)
    ensures forall j | 0 <= j < |q| && j < shift / 32 :: q[j] == 0
  {
    assert shift / 32 <= (shift + 1) / 32;
  }

  lemma TwiceOver(c: nat, p: nat)
    ensures c * (2 * p) == (2 * c) * p
  {
  }

  lemma AboveWeaker(q: seq<Limb>, shift: nat)
    requires Above(q, shift + 1)
    ensures Above(q, shift)
  {
    AboveBelow(q, shift);
    if shift / 32 < |q| {
      var c := Multiples(q, shift);
      hide Pow;
      PowNext(2, shift % 32);
      TwiceOver(c, Pow(2, shift % 32));
      assert q[shift / 32] == (2 * c) * Pow(2, shift % 32);
    }
  }

  /** What a division keeps: the number is what is left plus the quotient times the divisor. */
  ghost predicate Dividing(n: nat, d: nat, left: nat, quotient: nat, t: nat) {
    n == left + quotient * d && left < d * Pow(2, t)
  }

  lemma TakeOut(n: nat, d: nat, left: nat, quotient: nat, t: nat)
    requires Dividing(n, d, left, quotient, t + 1) && d * Pow(2, t) <= left
    ensures Dividing(n, d, left - d * Pow(2, t), quotient + Pow(2, t), t)
  {
    hide Pow;
    PowNext(2, t);
    assert d * (2 * Pow(2, t)) == 2 * (d * Pow(2, t));
    assert (quotient + Pow(2, t)) * d == quotient * d + d * Pow(2, t);
  }

  lemma DivisionDone(n: nat, d: nat, left: nat, quotient: nat)
    requires Dividing(n, d, left, quotient, 0)
    ensures d > 0 && quotient == n / d && left == n % d
  {
    assert d * Pow(2, 0) == d;
    DivUnique(quotient, left, d, n);
  }

  lemma HalfDivisor(d: nat, shift: nat)
    requires shift > 0
    ensures (d * Pow(2, shift)) / Pow(2, 1) == d * Pow(2, shift - 1)
  {
    assert Pow(2, 1) == 2;
    assert d * (2 * Pow(2, shift - 1)) == 2 * (d * Pow(2, shift - 1));
  }
}
