/** Shifting a list of limbs left and right, limb by limb. */
module Shifts {
  import opened Powers
  import opened Arithmetic
  import opened Limbs

  /** The factor of a shift by `k` limbs and `s` bits. */
  function Factor(k: nat, s: nat): (f: nat)
    ensures f > 0
  {
    PowPositive(2, s);
    MulPositive(Pow(2, s), Weight(k));
    Pow(2, s) * Weight(k)
  }

  lemma FactorIsPower(shift: nat)
    ensures Factor(shift / 32, shift % 32) == Pow(2, shift)
  {
    hide *;
    FactorPow(shift / 32, shift % 32);
    assert shift == 32 * (shift / 32) + shift % 32;
  }

  lemma FactorPow(k: nat, s: nat)
    ensures Factor(k, s) == Pow(2, 32 * k + s)
  {
    Pow2Weight(k);
    PowAdd(2, 32 * k, s);
    Commute(Weight(k), Pow(2, s));
  }

  /** The two halves a limb of 32 bits falls into when `s` bits are split off. */
  lemma SplitPowers(s: nat)
    requires s < 32
    ensures Pow(2, s) > 0 && Pow(2, 32 - s) > 0 && Pow(2, s) * Pow(2, 32 - s) == BASE
  {
    PowPositive(2, s);
    PowPositive(2, 32 - s);
    PowAdd(2, s, 32 - s);
    PowersOfTwo();
  }

  // ----- left -----

  function High(a: Limb, s: nat): nat {
    PowPositive(2, 32 - Min(s, 32));
    a / Pow(2, 32 - Min(s, 32))
  }

  function Low(a: Limb, s: nat): nat {
    MulNonNegative(a, Pow(2, s));
    (a * Pow(2, s)) % BASE
  }

  /** Shifting a limb: the high part is below `2^s`, the low part a multiple of it, and nothing is lost. */
  lemma LeftParts(a: Limb, s: nat) returns (m: nat)
    requires s < 32
    ensures a * Pow(2, s) == High(a, s) * BASE + Low(a, s)
    ensures High(a, s) < Pow(2, s) && Low(a, s) == m * Pow(2, s) && Low(a, s) + Pow(2, s) <= BASE
    ensures s == 0 ==> High(a, s) == 0
  {
    hide Pow;
    SplitPowers(s);
    m := PartsArith(a, Pow(2, s), Pow(2, 32 - s));
    if s == 0 {
      PowersOfTwo();
    }
  }

  lemma PartsArith(a: Limb, p: nat, q: nat) returns (m: nat)
    requires p > 0 && q > 0 && p * q == BASE
    ensures a * p == (a / q) * BASE + m * p && a / q < p && m * p + p <= BASE
    ensures a * p >= 0 && (a * p) % BASE == m * p
    ensures q == BASE ==> a / q == 0
  {
    var hi := a / q;
    m := a % q;
    assert a == hi * q + m;
    assert (hi * q + m) * p == hi * (p * q) + m * p by {
      assert (hi * q) * p == hi * (p * q);
    }
    MulLe(m + 1, q, p);
    assert (m + 1) * p == m * p + p && q * p == p * q;
    if hi >= p {
      MulLe(p, hi, q);
    }
    DivUnique(hi, m * p, BASE, a * p);
  }

  /** After `i` limbs, with `g` counting what has been pushed out at the top. */
  ghost predicate LeftSoFar(r: seq<Limb>, x: seq<Limb>, k: nat, s: nat, i: nat, g: nat) {
    && |r| == |x| && i <= |x|
    && Value(r) + g * Weight(|x|) == Value(x[..i]) * Factor(k, s)
    && (forall j | i + k < j < |r| :: r[j] == 0)
    && (i + k < |r| ==> r[i + k] < Pow(2, s))
  }

  function Bits(a: int, b: nat): int { if a < 0 then a else Or(a, b) }

  function LeftStep(r: seq<int>, a: Limb, s: nat, at: nat): seq<int> {
    var r1 := if at + 1 < |r| && s != 0 then r[at + 1 := Bits(r[at + 1], High(a, s))] else r;
    if at < |r| then r1[at := Bits(r[at], Low(a, s))] else r1
  }

  lemma ValueTakeNext(x: seq<Limb>, i: nat)
    requires i < |x|
    ensures Value(x[..i + 1]) == Value(x[..i]) + x[i] * Weight(i)
  {
    assert x[..i + 1] == x[..i] + [x[i]];
    ValuePush(x[..i], x[i]);
  }

  /** The next limb adds its shifted value. */
  lemma LeftGrowth(x: seq<Limb>, k: nat, s: nat, i: nat)
    requires i < |x|
    ensures Value(x[..i + 1]) * Factor(k, s) == Value(x[..i]) * Factor(k, s) + (x[i] * Pow(2, s)) * Weight(i + k)
  {
    hide Value, Weight;
    ValueTakeNext(x, i);
    WeightAdd(i, k);
    GrowthArith(Value(x[..i]), x[i], Weight(i), Pow(2, s), Weight(k));
  }

  lemma GrowthArith(v: int, a: int, wi: int, p: int, wk: int)
    ensures (v + a * wi) * (p * wk) == v * (p * wk) + (a * p) * (wi * wk)
  {
    assert (a * wi) * (p * wk) == (a * p) * (wi * wk);
  }

  lemma LeftStepKeeps(r: seq<Limb>, x: seq<Limb>, k: nat, s: nat, i: nat, g: nat) returns (g': nat)
    requires LeftSoFar(r, x, k, s, i, g) && i < |x| && s < 32
    ensures
      var r' := LeftStep(r, x[i], s, i + k);
      (forall j | 0 <= j < |r'| :: 0 <= r'[j] < BASE) && LeftSoFar(r', x, k, s, i + 1, g')
  {
    hide Value, Weight, Factor, High, Low;
    var at, a := i + k, x[i];
    var m := LeftParts(a, s);
    LeftGrowth(x, k, s, i);
    if at >= |r| {
      WeightAdd(at - |x|, |x|);
      var w := Weight(at - |x|);
      MulNonNegative(a, Pow(2, s));
      MulNonNegative(a * Pow(2, s), w);
      g' := g + (a * Pow(2, s)) * w;
      PushedOut(g, a * Pow(2, s), w, Weight(|x|));
    } else {
      OrDisjoint(r[at], m, s);
      var low: Limb := Or(r[at], Low(a, s));
      ValueUpdate(r, at, low);
      WeightUp(at);
      CarriedArith(High(a, s), Low(a, s), Weight(at), low, r[at]);
      if at + 1 == |r| {
        g' := g + High(a, s);
        assert LeftStep(r, a, s, at) == r[at := low];
        assert g' * Weight(|x|) == g * Weight(|x|) + High(a, s) * Weight(|x|) by {
          Distribute(g', g, Weight(|x|));
        }
      } else {
        g' := g;
        OrZero(High(a, s));
        var hi: Limb := High(a, s);
        var r1 := r[at := low];
        ValueUpdate(r1, at + 1, hi);
        assert LeftStep(r, a, s, at) == r1[at + 1 := hi];
        assert (hi - 0) * Weight(at + 1) == hi * Weight(at + 1);
      }
    }
  }

  lemma WeightUp(i: nat)
    ensures Weight(i + 1) == BASE * Weight(i)
  {
  }

  lemma PushedOut(g: int, v: int, w: int, m: int)
    ensures (g + v * w) * m == g * m + v * (w * m)
  {
    assert (v * w) * m == v * (w * m);
  }

  lemma CarriedArith(hi: int, lo: int, w: int, sum: int, before: int)
    requires sum == before + lo
    ensures (hi * BASE + lo) * w == hi * (BASE * w) + (sum - before) * w
  {
    assert (hi * BASE) * w == hi * (BASE * w);
  }

  lemma LeftStart(r: seq<Limb>, x: seq<Limb>, k: nat, s: nat)
    requires |r| == |x| && forall j | 0 <= j < |r| :: r[j] == 0
    ensures LeftSoFar(r, x, k, s, 0, 0)
  {
    ValueZeros(r);
    PowPositive(2, s);
  }

  /** A finished left shift multiplies by a power of two, modulo the width. */
  lemma LeftDone(r: seq<Limb>, x: seq<Limb>, shift: nat, g: nat)
    requires LeftSoFar(r, x, shift / 32, shift % 32, |x|, g)
    ensures Value(r) == (Value(x) * Pow(2, shift)) % Weight(|x|)
  {
    hide Value, Weight, Factor, LeftSoFar, Pow;
    LeftValue(r, x, shift / 32, shift % 32, g);
    FactorIsPower(shift);
    ValueBound(r);
    ModUnique(Value(r), g, Weight(|x|), Value(x) * Pow(2, shift));
  }

  lemma LeftValue(r: seq<Limb>, x: seq<Limb>, k: nat, s: nat, g: nat)
    requires LeftSoFar(r, x, k, s, |x|, g)
    ensures |r| == |x| && Value(r) + g * Weight(|x|) == Value(x) * Factor(k, s)
  {
    hide Value, Weight, Factor;
    assert x[..|x|] == x;
  }

  // ----- right -----

  /** The part of a limb that stays, and the part that moves into the limb below. */
  function Stays(a: Limb, s: nat): nat {
    PowPositive(2, s);
    a / Pow(2, s)
  }

  function Moves(a: Limb, s: nat): nat {
    PowPositive(2, 32 - Min(s, 32));
    MulNonNegative(a, Pow(2, 32 - Min(s, 32)));
    (a * Pow(2, 32 - Min(s, 32))) % BASE
  }

  /** `rest` is what a limb loses when `s` bits are cut off; its bits are the ones that move down. */
  lemma RightParts(a: Limb, s: nat) returns (rest: nat)
    requires s < 32
    ensures a == Stays(a, s) * Pow(2, s) + rest && rest < Pow(2, s)
    ensures Moves(a, s) == rest * Pow(2, 32 - s) && Moves(a, s) + Pow(2, 32 - s) <= BASE
    ensures Stays(a, s) < Pow(2, 32 - s)
    ensures s == 0 ==> Moves(a, s) == 0
  {
    hide Pow;
    SplitPowers(s);
    var p, q := Pow(2, s), Pow(2, 32 - s);
    Commute(p, q);
    rest := a % p;
    var m := PartsArith(a, q, p);
    assert a == (a / p) * p + rest;
    MoveArith(a / p, rest, p, q, m);
    if s == 0 {
      PowZero();
      assert rest == 0;
    }
  }

  lemma PowZero()
    ensures Pow(2, 0) == 1
  {
  }

  lemma MoveArith(hi: nat, rest: nat, p: nat, q: nat, m: nat)
    requires p * q == BASE && q > 0 && (hi * p + rest) * q == hi * BASE + m * q
    ensures m * q == rest * q
  {
    assert (hi * p + rest) * q == (hi * p) * q + rest * q;
    assert (hi * p) * q == hi * (p * q);
  }

  /** After `i` limbs: the result times the factor, plus a remainder that is too small to matter. */
  ghost predicate RightSoFar(r: seq<Limb>, x: seq<Limb>, k: nat, s: nat, i: nat, rem: nat) {
    && |r| == |x| && i <= |x|
    && Value(r) * Factor(k, s) + rem == Value(x[..i])
    && rem < (if i <= k then Weight(i) else Factor(k, s))
    && (forall j | 0 <= j < |r| && i - k <= j :: r[j] == 0)
    && (i > k ==> r[i - k - 1] < Pow(2, 32 - Min(s, 32)))
  }

  function RightStep(r: seq<int>, a: Limb, s: nat, i: nat, k: nat): seq<int>
    requires i < |r|
  {
    var r1 := if i > k && s != 0 then r[i - k - 1 := Bits(r[i - k - 1], Moves(a, s))] else r;
    if i >= k then r1[i - k := Bits(r1[i - k], Stays(a, s))] else r1
  }

  lemma RightStart(r: seq<Limb>, x: seq<Limb>, k: nat, s: nat)
    requires |r| == |x| && forall j | 0 <= j < |r| :: r[j] == 0
    ensures RightSoFar(r, x, k, s, 0, 0)
  {
    ValueZeros(r);
  }

  lemma RightStepBelow(r: seq<Limb>, x: seq<Limb>, k: nat, s: nat, i: nat, rem: nat) returns (rem': nat)
    requires RightSoFar(r, x, k, s, i, rem) && i < |x| && s < 32 && i < k
    ensures RightSoFar(r, x, k, s, i + 1, rem')
  {
    hide Value, Weight, Factor;
    ValueTakeNext(x, i);
    BoundStep(rem, x[i], Weight(i));
    WeightUp(i);
    MulNonNegative(x[i], Weight(i));
    rem' := rem + x[i] * Weight(i);
  }

  lemma RightStepFirst(r: seq<Limb>, x: seq<Limb>, k: nat, s: nat, rem: nat) returns (rem': nat)
    requires RightSoFar(r, x, k, s, k, rem) && k < |x| && s < 32
    ensures
      var r' := RightStep(r, x[k], s, k, k);
      (forall j | 0 <= j < |r'| :: 0 <= r'[j] < BASE) && RightSoFar(r', x, k, s, k + 1, rem')
  {
    hide Value, Weight, Stays, Moves, Pow;
    var a := x[k];
    var rest := RightParts(a, s);
    SplitPowers(s);
    OrZero(Stays(a, s));
    var hi: Limb := Stays(a, s);
    assert RightStep(r, a, s, k, k) == r[0 := hi];
    ValueTakeNext(x, k);
    ValueZeros(r);
    ValueUpdate(r, 0, hi);
    WeightZero();
    MulNonNegative(rest, Weight(k));
    rem' := rem + rest * Weight(k);
    FirstArith(hi, Pow(2, s), rest, Weight(k), rem);
  }

  lemma WeightZero()
    ensures Weight(0) == 1
  {
  }

  lemma FirstArith(hi: nat, p: nat, rest: nat, w: nat, rem: nat)
    requires rest < p && rem < w
    ensures hi * (p * w) + rest * w == (hi * p + rest) * w
    ensures rem + rest * w < p * w
  {
    assert hi * (p * w) == (hi * p) * w;
    MulLe(rest + 1, p, w);
    assert (rest + 1) * w == rest * w + w;
  }

  /** The two limbs that a step above the cut changes. */
  lemma AboveLimbs(r: seq<Limb>, a: Limb, k: nat, s: nat, i: nat) returns (low: Limb, hi: Limb, rest: nat)
    requires k < i < |r| && s < 32 && r[i - k] == 0 && r[i - k - 1] < Pow(2, 32 - s)
    ensures low == r[i - k - 1] + rest * Pow(2, 32 - s) && hi < Pow(2, 32 - s) && a == hi * Pow(2, s) + rest
    ensures RightStep(r, a, s, i, k) == r[i - k - 1 := low][i - k := hi]
  {
    hide Stays, Moves, Pow;
    var at := i - k;
    rest := RightParts(a, s);
    SplitPowers(s);
    OrDisjoint(r[at - 1], rest, 32 - s);
    OrZero(Stays(a, s));
    low := Or(r[at - 1], Moves(a, s));
    hi := Stays(a, s);
    if s == 0 {
      OrZero(r[at - 1]);
    }
  }

  lemma RightStepAbove(r: seq<Limb>, x: seq<Limb>, k: nat, s: nat, i: nat, rem: nat)
    requires RightSoFar(r, x, k, s, i, rem) && k < i < |x| && s < 32
    ensures
      var r' := RightStep(r, x[i], s, i, k);
      (forall j | 0 <= j < |r'| :: 0 <= r'[j] < BASE) && RightSoFar(r', x, k, s, i + 1, rem)
  {
    hide Value, Weight, Pow, Factor, RightStep;
    var a, at := x[i], i - k;
    var low, hi, rest := AboveLimbs(r, a, k, s, i);
    SplitPowers(s);
    var r1 := r[at - 1 := low];
    ValueUpdate(r, at - 1, low);
    ValueUpdate(r1, at, hi);
    ValueTakeNext(x, i);
    WeightUp(at - 1);
    WeightAdd(at, k);
    AboveValue(Value(r), rest, hi, Pow(2, s), Pow(2, 32 - s), Weight(at - 1), Weight(k), k, s, a);
  }

  lemma AboveValue(v: nat, rest: nat, hi: nat, p: nat, q: nat, w: nat, wk: nat, k: nat, s: nat, a: Limb)
    requires p == Pow(2, s) && wk == Weight(k) && p * q == BASE && a == hi * p + rest
    ensures (v + (rest * q) * w + (hi - 0) * (BASE * w)) * Factor(k, s) == v * Factor(k, s) + a * ((BASE * w) * wk)
  {
    AboveArith(v, rest, hi, p, q, w, wk);
  }

  lemma AboveArith(v: int, rest: int, hi: int, p: int, q: int, w: int, wk: int)
    requires p * q == BASE
    ensures (v + (rest * q) * w + hi * (BASE * w)) * (p * wk) == v * (p * wk) + (hi * p + rest) * ((BASE * w) * wk)
  {
    var f := p * wk;
    assert ((rest * q) * w) * f == rest * ((BASE * w) * wk) by {
      assert ((rest * q) * w) * (p * wk) == (rest * (p * q)) * (w * wk);
      assert (rest * BASE) * (w * wk) == rest * ((BASE * w) * wk);
    }
    assert (hi * (BASE * w)) * f == (hi * p) * ((BASE * w) * wk);
    assert (v + (rest * q) * w + hi * (BASE * w)) * f == v * f + ((rest * q) * w) * f + (hi * (BASE * w)) * f;
  }

  lemma RightStepKeeps(r: seq<Limb>, x: seq<Limb>, k: nat, s: nat, i: nat, rem: nat) returns (rem': nat)
    requires RightSoFar(r, x, k, s, i, rem) && i < |x| && s < 32
    ensures |r| == |x|
    ensures
      var r' := RightStep(r, x[i], s, i, k);
      (forall j | 0 <= j < |r'| :: 0 <= r'[j] < BASE) && RightSoFar(r', x, k, s, i + 1, rem')
  {
    assert |r| == |x|;
    hide Value, Weight, Stays, Moves, Pow, Factor, RightSoFar;
    if i < k {
      rem' := RightStepBelow(r, x, k, s, i, rem);
    } else if i == k {
      rem' := RightStepFirst(r, x, k, s, rem);
    } else {
      RightStepAbove(r, x, k, s, i, rem);
      rem' := rem;
    }
  }

  /** A finished right shift divides by a power of two. */
  lemma RightDone(r: seq<Limb>, x: seq<Limb>, shift: nat, rem: nat)
    requires RightSoFar(r, x, shift / 32, shift % 32, |x|, rem)
    ensures Pow(2, shift) > 0 && Value(r) == Value(x) / Pow(2, shift)
  {
    hide Value, Weight, Factor, RightSoFar, Pow;
    RightValue(r, x, shift / 32, shift % 32, rem);
    FactorIsPower(shift);
    DivUnique(Value(r), rem, Pow(2, shift), Value(x));
  }

  lemma RightValue(r: seq<Limb>, x: seq<Limb>, k: nat, s: nat, rem: nat)
    requires RightSoFar(r, x, k, s, |x|, rem)
    ensures Value(r) * Factor(k, s) + rem == Value(x) && rem < Factor(k, s)
  {
    hide Value, Weight;
    assert x[..|x|] == x;
    if |x| <= k {
      WeightMonotone(|x|, k);
      PowPositive(2, s);
      MulLe(1, Pow(2, s), Weight(k));
    }
  }

  lemma WeightMonotone(i: nat, j: nat)
    requires i <= j
    ensures Weight(i) <= Weight(j)
  {
    PowMonotone(BASE, i, j);
  }
}
