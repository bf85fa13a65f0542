/** The number a list of 32-bit limbs stands for, least significant first. */
module Limbs {
  import opened Powers
  import opened Arithmetic

  const BASE: nat := 0x1_0000_0000

  type Limb = x: int | 0 <= x < BASE

  /** The weight of limb `i`. */
  function Weight(i: nat): (w: nat)
    ensures w > 0
  {
    PowPositive(BASE, i);
    Pow(BASE, i)
  }

  function Value(s: seq<Limb>): nat
  {
    if s == [] then 0 else
      var i := |s| - 1;
      Value(s[..i]) + s[i] * Weight(i)
  }

  lemma ValuePush(s: seq<Limb>, x: Limb)
    ensures Value(s + [x]) == Value(s) + x * Weight(|s|)
  {
    assert (s + [x])[..|s|] == s;
  }

  lemma {:induction false} ValueBound(s: seq<Limb>)
    ensures Value(s) < Weight(|s|)
  {
    if s != [] {
      var i := |s| - 1;
      ValueBound(s[..i]);
      BoundStep(Value(s[..i]), s[i], Weight(i));
    }
  }

  lemma BoundStep(v: nat, x: Limb, w: nat)
    requires v < w
    ensures v + x * w < BASE * w
  {
    assert x * w <= (BASE - 1) * w by { MulLe(x, BASE - 1, w); }
  }

  lemma {:induction false} ValueUpdate(s: seq<Limb>, k: nat, x: Limb)
    requires k < |s|
    ensures Value(s[k := x]) == Value(s) + (x - s[k]) * Weight(k)
  {
    var i := |s| - 1;
    if k == i {
      assert s[k := x][..i] == s[..i];
      Distribute(x, s[k], Weight(k));
    } else {
      ValueUpdate(s[..i], k, x);
      assert s[k := x][..i] == s[..i][k := x];
    }
  }

  lemma {:induction false} ValueZeros(s: seq<Limb>)
    requires forall i | 0 <= i < |s| :: s[i] == 0
    ensures Value(s) == 0
  {
    if s != [] {
      ValueZeros(s[..|s| - 1]);
    }
  }

  lemma {:induction false} ValueSplit(s: seq<Limb>, k: nat)
    requires k <= |s|
    ensures Value(s) == Value(s[..k]) + Value(s[k..]) * Weight(k)
  {
    if k == |s| {
      assert s[..k] == s && s[k..] == [];
    } else {
      var i := |s| - 1;
      var t := s[..i];
      ValueSplit(t, k);
      assert t[..k] == s[..k] && s[k..] == t[k..] + [s[i]];
      ValuePush(t[k..], s[i]);
      WeightAdd(k, i - k);
      SplitArith(Value(t[k..]), s[i], Weight(k), Weight(i - k));
    }
  }

  lemma SplitArith(v: nat, x: nat, p: nat, q: nat)
    ensures (v + x * q) * p == v * p + x * (p * q)
  {
    assert (x * q) * p == x * (p * q);
  }

  lemma WeightAdd(i: nat, j: nat)
    ensures Weight(i + j) == Weight(i) * Weight(j)
  {
    PowAdd(BASE, i, j);
  }

  /** A 64-bit sum is split into a limb and a carry without losing anything. */
  lemma CarryStep(n: nat, w: nat)
    ensures (n % BASE) * w + (n / BASE) * (BASE * w) == n * w
  {
    var q, r := n / BASE, n % BASE;
    assert n == q * BASE + r;
    assert q * (BASE * w) == (q * BASE) * w;
    assert (q * BASE) * w + r * w == (q * BASE + r) * w;
  }

  // ----- comparison -----

  /** The highest limb that differs decides. */
  lemma HigherLimbDecides(a: seq<Limb>, b: seq<Limb>, i: nat)
    requires |a| == |b| && i < |a| && a[i] < b[i] && a[i + 1..] == b[i + 1..]
    ensures Value(a) < Value(b)
  {
    hide Value, Weight;
    ValueSplit(a, i + 1);
    ValueSplit(b, i + 1);
    assert a[..i + 1] == a[..i] + [a[i]] && b[..i + 1] == b[..i] + [b[i]];
    ValuePush(a[..i], a[i]);
    ValuePush(b[..i], b[i]);
    ValueBound(a[..i]);
    MulLe(a[i] + 1, b[i], Weight(i));
    assert (a[i] + 1) * Weight(i) == a[i] * Weight(i) + Weight(i);
  }

  // ----- bits -----

  /** Bitwise or. */
  function Or(x: nat, y: nat): nat
    decreases x + y
  {
    if x == 0 && y == 0 then 0
    else 2 * Or(x / 2, y / 2) + if x % 2 == 1 || y % 2 == 1 then 1 else 0
  }

  lemma {:induction false} OrZero(y: nat)
    ensures Or(0, y) == y && Or(y, 0) == y
  {
    if y > 0 {
      OrZero(y / 2);
    }
  }

  /** Numbers without a common bit are added. */
  lemma {:induction false} OrDisjoint(x: nat, m: nat, k: nat)
    requires x < Pow(2, k)
    ensures Or(x, m * Pow(2, k)) == Or(m * Pow(2, k), x) == x + m * Pow(2, k)
    decreases k
  {
    if k == 0 {
      assert m * Pow(2, 0) == m;
      OrZero(m);
    } else {
      OrDisjoint(x / 2, m, k - 1);
      MulTwo(m, Pow(2, k - 1));
      OrDouble(x, m * Pow(2, k - 1));
    }
  }

  lemma MulTwo(m: nat, p: nat)
    ensures m * (2 * p) == 2 * (m * p)
  {
  }

  lemma OrDouble(x: nat, y: nat)
    ensures Or(x, 2 * y) == 2 * Or(x / 2, y) + x % 2
    ensures Or(2 * y, x) == 2 * Or(y, x / 2) + x % 2
  {
    hide Or;
    OrUnfolds(x, 2 * y);
    OrUnfolds(2 * y, x);
    assert (2 * y) / 2 == y && (2 * y) % 2 == 0;
  }

  lemma OrUnfolds(x: nat, y: nat)
    ensures Or(x, y) == 2 * Or(x / 2, y / 2) + if x % 2 == 1 || y % 2 == 1 then 1 else 0
  {
  }

  /** Setting a bit that is clear adds its weight. */
  lemma {:induction false} OrBit(x: nat, k: nat)
    requires Pow(2, k) > 0 && (x / Pow(2, k)) % 2 == 0
    ensures Or(x, Pow(2, k)) == x + Pow(2, k)
    decreases k
  {
    if k == 0 {
      OrZero(x / 2);
      assert x / 1 == x;
    } else {
      var p := Pow(2, k - 1);
      assert Pow(2, k) == 2 * p;
      PowPositive(2, k - 1);
      hide Or, Pow;
      DivTwice(x, p);
      OrBit(x / 2, k - 1);
      OrDouble(x, p);
    }
  }

  lemma DivTwice(x: nat, p: nat)
    requires p > 0
    ensures (x / 2) / p == x / (2 * p)
  {
    var q := (x / 2) / p;
    var r := (x / 2) % p;
    assert x / 2 == q * p + r;
    assert x == 2 * (x / 2) + x % 2;
    assert 2 * (q * p) == q * (2 * p);
    DivUnique(q, 2 * r + x % 2, 2 * p, x);
  }

  lemma {:induction false} Pow2Weight(k: nat)
    ensures Pow(2, 32 * k) == Weight(k)
  {
    if k > 0 {
      Pow2Weight(k - 1);
      PowAdd(2, 32, 32 * (k - 1));
      PowersOfTwo();
    }
  }
}
