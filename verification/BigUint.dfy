/**
 Fixed-width unsigned integers of `src/arith_uint256.h` and `src/arith_uint256.cpp`, for any number of 32-bit
 limbs.  Every operator is proved to be the arithmetic operation modulo 2 to the width, and every 64-bit
 intermediate is proved to fit.
 */
module BigUint {
  import opened Powers
  import opened Arithmetic
  import opened Limbs
  import opened Shifts
  import opened Division

  const U64: nat := 0x1_0000_0000_0000_0000

  /** Storing the low half of a sum and carrying the high half. */
  lemma LimbStep(r: seq<Limb>, n: nat)
    ensures Value(r + [n % BASE]) + (n / BASE) * Weight(|r| + 1) == Value(r) + n * Weight(|r|)
  {
    ValuePush(r, n % BASE);
    CarryStep(n, Weight(|r|));
  }

  lemma AddStep(r: seq<Limb>, x: seq<Limb>, y: seq<Limb>, carry: nat)
    requires |r| < |x| == |y|
    requires Value(r) + carry * Weight(|r|) == Value(x[..|r|]) + Value(y[..|r|])
    ensures
      var n := carry + x[|r|] + y[|r|];
      Value(r + [n % BASE]) + (n / BASE) * Weight(|r| + 1) == Value(x[..|r| + 1]) + Value(y[..|r| + 1])
  {
    hide Value, Weight;
    var i := |r|;
    LimbStep(r, carry + x[i] + y[i]);
    ValueTakeNext(x, i);
    ValueTakeNext(y, i);
    Distribute3(carry, x[i], y[i], Weight(i));
  }

  lemma Distribute3(a: int, b: int, c: int, w: int)
    ensures (a + b + c) * w == a * w + b * w + c * w
  {
  }

  /** The low limbs and the carry of `b` times `x`. */
  ghost predicate MulSoFar(r: seq<Limb>, x: seq<Limb>, b: nat, carry: nat) {
    |r| <= |x| && Value(r) + carry * Weight(|r|) == b * Value(x[..|r|])
  }

  lemma MulDone(r: seq<Limb>, x: seq<Limb>, b: nat, carry: nat)
    requires |r| == |x| && MulSoFar(r, x, b, carry)
    ensures Value(r) == (Value(x) * b) % Weight(|x|)
  {
    hide Value, Weight;
    assert x[..|r|] == x;
    ValueBound(r);
    ModOfProduct(Value(r), carry, Weight(|x|), b, Value(x));
  }

  lemma ModOfProduct(v: nat, k: int, m: nat, b: nat, x: nat)
    requires v < m && v + k * m == b * x
    ensures v == (x * b) % m
  {
    assert b * x == x * b;
    ModUnique(v, k, m, x * b);
  }

  lemma MulStep(r: seq<Limb>, x: seq<Limb>, b: nat, carry: nat)
    requires |r| < |x| && MulSoFar(r, x, b, carry)
    ensures
      var n := carry + b * x[|r|];
      n >= 0 && MulSoFar(r + [n % BASE], x, b, n / BASE)
  {
    hide Value, Weight;
    var i := |r|;
    LimbStep(r, carry + b * x[i]);
    ValueTakeNext(x, i);
    MulStepArith(carry, b, x[i], Weight(i), Value(x[..i]));
  }

  lemma MulStepArith(carry: nat, b: nat, x: nat, w: nat, v: nat)
    ensures (carry + b * x) * w + b * v == carry * w + b * (v + x * w)
  {
    assert (b * x) * w == b * (x * w);
  }

  lemma {:induction false} ValueComplement(x: seq<Limb>, r: seq<Limb>)
    requires |r| == |x| && forall i | 0 <= i < |x| :: r[i] == BASE - 1 - x[i]
    ensures Value(r) + Value(x) == Weight(|x|) - 1
  {
    if x != [] {
      var i := |x| - 1;
      ValueComplement(x[..i], r[..i]);
      Distribute(BASE - 1, x[i], Weight(i));
      assert r[i] * Weight(i) + x[i] * Weight(i) == (BASE - 1) * Weight(i);
      assert (BASE - 1) * Weight(i) == BASE * Weight(i) - Weight(i);
    }
  }

  lemma {:induction false} ValueMax(x: seq<Limb>)
    requires forall i | 0 <= i < |x| :: x[i] == BASE - 1
    ensures Value(x) == Weight(|x|) - 1
  {
    var zeros: seq<Limb> := seq(|x|, _ => 0);
    ValueComplement(zeros, x);
    ValueZeros(zeros);
  }

  /** Lists that agree from `i + 1` on differ in value by what differs up to `i`. */
  lemma SameTail(r: seq<Limb>, x: seq<Limb>, i: nat)
    requires i < |r| == |x| && r[i + 1..] == x[i + 1..]
    ensures Value(r) - Value(x) == Value(r[..i]) - Value(x[..i]) + (r[i] - x[i]) * Weight(i)
  {
    hide Value, Weight;
    ValueSplit(r, i + 1);
    ValueSplit(x, i + 1);
    ValueTakeNext(r, i);
    ValueTakeNext(x, i);
    Distribute(r[i], x[i], Weight(i));
  }

  lemma IncrementDone(r: seq<Limb>, x: seq<Limb>, i: nat)
    requires i < |r| == |x| && r[i + 1..] == x[i + 1..]
    requires forall j | 0 <= j < i :: r[j] == 0 && x[j] == BASE - 1
    requires r[i] == (x[i] + 1) % BASE && (r[i] != 0 || i == |r| - 1)
    ensures Value(r) == (Value(x) + 1) % Weight(|x|)
  {
    hide Value, Weight;
    SameTail(r, x, i);
    ValueZeros(r[..i]);
    ValueMax(x[..i]);
    ValueBound(r);
    if r[i] != 0 {
      ModUnique(Value(r), 0, Weight(|x|), Value(x) + 1);
    } else {
      WeightUp(i);
      assert (0 - (BASE - 1)) * Weight(i) == Weight(i) - BASE * Weight(i);
      ModUnique(Value(r), 1, Weight(|x|), Value(x) + 1);
    }
  }

  lemma DecrementDone(r: seq<Limb>, x: seq<Limb>, i: nat)
    requires i < |r| == |x| && r[i + 1..] == x[i + 1..]
    requires forall j | 0 <= j < i :: r[j] == BASE - 1 && x[j] == 0
    requires r[i] == (x[i] + BASE - 1) % BASE && (r[i] != BASE - 1 || i == |r| - 1)
    ensures Value(r) == (Value(x) + Weight(|x|) - 1) % Weight(|x|)
  {
    hide Value, Weight;
    SameTail(r, x, i);
    ValueZeros(x[..i]);
    ValueMax(r[..i]);
    ValueBound(r);
    if x[i] != 0 {
      assert (0 - 1) * Weight(i) == 0 - Weight(i);
      ModUnique(Value(r), 1, Weight(|x|), Value(x) + Weight(|x|) - 1);
    } else {
      WeightUp(i);
      assert (BASE - 1) * Weight(i) == BASE * Weight(i) - Weight(i);
      ModUnique(Value(r), 0, Weight(|x|), Value(x) + Weight(|x|) - 1);
    }
  }

  lemma SubtractByNegation(a: nat, b: nat, m: nat)
    requires a < m && b < m
    ensures (a + (m - b) % m) % m == (a + m - b) % m == if b <= a then a - b else a + m - b
  {
    if b == 0 {
      ModUnique(0, 1, m, m);
      ModUnique(a, 1, m, a + m);
      ModUnique(a, 0, m, a);
    } else {
      ModUnique(m - b, 0, m, m - b);
      if b <= a {
        ModUnique(a - b, 1, m, a + m - b);
      } else {
        ModUnique(a + m - b, 0, m, a + m - b);
      }
    }
  }

  // ----- long multiplication -----

  /** Part of row `j`: the accumulator has grown by limb `j` of `x` times the first limbs of `y`. */
  ghost predicate RowSoFar(acc: seq<Limb>, acc0: seq<Limb>, x: seq<Limb>, y: seq<Limb>, j: nat, i: nat, carry: nat) {
    && j < |x| && i <= |y|
    && Value(acc) + carry * Weight(i + j) == Value(acc0) + (x[j] * Value(y[..i])) * Weight(j)
  }

  /** Rows before `j` are in: the accumulator is their product, up to a multiple of the modulus. */
  ghost predicate RowsDone(acc: seq<Limb>, x: seq<Limb>, y: seq<Limb>, j: nat, k: nat) {
    j <= |x| && Value(acc) + k * Weight(|x|) == Value(x[..j]) * Value(y)
  }

  lemma RowStart(acc: seq<Limb>, x: seq<Limb>, y: seq<Limb>, j: nat)
    requires j < |x|
    ensures RowSoFar(acc, acc, x, y, j, 0, 0)
  {
  }

  lemma RowStep(acc: seq<Limb>, acc0: seq<Limb>, x: seq<Limb>, y: seq<Limb>, j: nat, i: nat, carry: nat)
    requires RowSoFar(acc, acc0, x, y, j, i, carry) && i < |y| && i + j < |acc|
    ensures
      var n := carry + acc[i + j] + (x[j] as int) * y[i];
      n >= 0 && RowSoFar(acc[i + j := n % BASE], acc0, x, y, j, i + 1, n / BASE)
  {
    hide Value, Weight;
    var n := carry + acc[i + j] + (x[j] as int) * y[i];
    var w := Weight(i + j);
    LimbProduct(x[j], y[i]);
    ValueUpdate(acc, i + j, n % BASE);
    CarryStep(n, w);
    WeightUp(i + j);
    ValueTakeNext(y, i);
    WeightAdd(j, i);
    RowArith(n, carry, acc[i + j], x[j], y[i], Value(y[..i]), Weight(j), Weight(i), n % BASE);
  }

  lemma RowArith(n: int, carry: int, a: int, x: int, y: int, v: int, wj: int, wi: int, low: int)
    requires n == carry + a + x * y
    ensures (low - a) * (wj * wi) == low * (wj * wi) - a * (wj * wi)
    ensures n * (wj * wi) == carry * (wj * wi) + a * (wj * wi) + (x * (y * wi)) * wj
    ensures (x * (v + y * wi)) * wj == (x * v) * wj + (x * (y * wi)) * wj
  {
    var w := wj * wi;
    assert n * w == carry * w + a * w + (x * y) * w;
    assert (x * y) * w == (x * (y * wi)) * wj;
    assert x * (v + y * wi) == x * v + x * (y * wi);
  }

  lemma RowEnd(acc: seq<Limb>, acc0: seq<Limb>, x: seq<Limb>, y: seq<Limb>, j: nat, carry: nat, k: nat)
          returns (k': nat)
    requires j < |x| == |y| == |acc| && RowSoFar(acc, acc0, x, y, j, |x| - j, carry)
    requires RowsDone(acc0, x, y, j, k)
    ensures RowsDone(acc, x, y, j + 1, k')
  {
    hide Value, Weight;
    var rest := |x| - j;
    ValueSplit(y, rest);
    WeightAdd(rest, j);
    ValueTakeNext(x, j);
    var t := Value(y[rest..]);
    MulNonNegative(x[j], t);
    k' := k + carry + x[j] * t;
    RowEndArith(x[j], Value(y[..rest]), t, Weight(rest), Weight(j), Value(x[..j]), Value(y), k, carry);
  }

  lemma RowEndArith(x: int, low: int, t: int, wr: int, wj: int, done: int, y: int, k: int, carry: int)
    requires y == low + t * wr
    ensures (done + x * wj) * y == done * y + (x * low) * wj + (x * t) * (wr * wj)
    ensures (k + carry + x * t) * (wr * wj) == k * (wr * wj) + carry * (wr * wj) + (x * t) * (wr * wj)
  {
    assert (done + x * wj) * y == done * y + (x * wj) * (low + t * wr);
    assert (x * wj) * (low + t * wr) == (x * wj) * low + (x * wj) * (t * wr);
    assert (x * wj) * low == (x * low) * wj;
    assert (x * wj) * (t * wr) == (x * t) * (wr * wj);
  }

  lemma AllRowsDone(acc: seq<Limb>, x: seq<Limb>, y: seq<Limb>, k: nat)
    requires |acc| == |x| && RowsDone(acc, x, y, |x|, k)
    ensures Value(acc) == (Value(x) * Value(y)) % Weight(|x|)
  {
    hide Value, Weight;
    assert x[..|x|] == x;
    ValueBound(acc);
    ModOfProduct(Value(acc), k, Weight(|x|), Value(x), Value(y));
    Commute(Value(x), Value(y));
  }

  lemma NoRows(acc: seq<Limb>, x: seq<Limb>, y: seq<Limb>)
    requires Value(acc) == 0
    ensures RowsDone(acc, x, y, 0, 0)
  {
  }

  class Uint {
    const pn: array<Limb>

    constructor (width: nat)
      ensures fresh(pn) && pn.Length == width && Val() == 0
      ensures forall i | 0 <= i < width :: pn[i] == 0
    {
      pn := new Limb[width](_ => 0);
      new;
      ValueZeros(pn[..]);
    }

    constructor Copy(b: Uint)
      ensures fresh(pn) && pn.Length == b.pn.Length && pn[..] == b.pn[..]
    {
      pn := new Limb[b.pn.Length](i requires 0 <= i < b.pn.Length reads b.pn => b.pn[i]);
    }

    ghost function Val(): nat
      reads pn
    {
      Value(pn[..])
    }

    function Modulus(): (m: nat)
      ensures m > 0
    {
      Weight(pn.Length)
    }

    method AddAssign(b: Uint)
      requires b.pn.Length == pn.Length
      modifies pn
      ensures Val() == (old(Val()) + old(b.Val())) % Modulus()
    {
      hide Value, Weight;
      ghost var x, y := pn[..], b.pn[..];
      var carry: nat := 0;
      AddStart(x, y);
      for i := 0 to pn.Length
        invariant pn[i..] == x[i..] && b.pn[i..] == y[i..] && carry <= 1
        invariant Value(pn[..i]) + carry * Weight(i) == Value(x[..i]) + Value(y[..i])
      {
        assert pn[i] == pn[i..][0] == x[i..][0] == x[i];
        assert b.pn[i] == b.pn[i..][0] == y[i..][0] == y[i];
        ghost var r := pn[..i];
        var n: nat := carry + pn[i] + b.pn[i];
        assert n < U64;
        AddStep(r, x, y, carry);
        pn[i] := n % BASE;
        carry := n / BASE;
        assert pn[..i + 1] == r + [n % BASE];
        assert x[i + 1..] == x[i..][1..] && y[i + 1..] == y[i..][1..];
        assert pn[i + 1..] == x[i + 1..] && b.pn[i + 1..] == y[i + 1..];
      }
      assert pn[..pn.Length] == pn[..] && x[..pn.Length] == x && y[..pn.Length] == y;
      ValueBound(pn[..]);
      ModUnique(Value(pn[..]), carry, Weight(pn.Length), Value(x) + Value(y));
    }

    method Increment()
      requires pn.Length > 0
      modifies pn
      ensures Val() == (old(Val()) + 1) % Modulus()
    {
      ghost var x := pn[..];
      var i := 0;
      pn[0] := (pn[0] + 1) % BASE;
      while pn[i] == 0 && i < pn.Length - 1
        invariant 0 <= i < pn.Length && pn[i] == (x[i] + 1) % BASE
        invariant forall j | i < j < pn.Length :: pn[j] == x[j]
        invariant forall j | 0 <= j < i :: pn[j] == 0 && x[j] == BASE - 1
      {
        i := i + 1;
        pn[i] := (pn[i] + 1) % BASE;
      }
      IncrementDone(pn[..], x, i);
    }

    method Decrement()
      requires pn.Length > 0
      modifies pn
      ensures Val() == (old(Val()) + Modulus() - 1) % Modulus()
    {
      ghost var x := pn[..];
      var i := 0;
      pn[0] := (pn[0] + BASE - 1) % BASE;
      while pn[i] == BASE - 1 && i < pn.Length - 1
        invariant 0 <= i < pn.Length && pn[i] == (x[i] + BASE - 1) % BASE
        invariant forall j | i < j < pn.Length :: pn[j] == x[j]
        invariant forall j | 0 <= j < i :: pn[j] == BASE - 1 && x[j] == 0
      {
        i := i + 1;
        pn[i] := (pn[i] + BASE - 1) % BASE;
      }
      DecrementDone(pn[..], x, i);
    }

    method Negated() returns (r: Uint)
      requires pn.Length > 0
      ensures fresh(r) && fresh(r.pn) && r.pn.Length == pn.Length
      ensures Modulus() > 0 && r.Val() == (Modulus() - Val()) % Modulus()
    {
      hide Value, Weight;
      r := new Uint(pn.Length);
      for i := 0 to pn.Length
        invariant forall j | 0 <= j < i :: r.pn[j] == BASE - 1 - pn[j]
      {
        r.pn[i] := BASE - 1 - pn[i];
      }
      ValueComplement(pn[..], r.pn[..]);
      ValueBound(pn[..]);
      r.Increment();
    }

    method SubAssign(b: Uint)
      requires b.pn.Length == pn.Length > 0
      modifies pn
      ensures Val() == if old(b.Val()) <= old(Val()) then old(Val()) - old(b.Val())
          else old(Val()) + Modulus() - old(b.Val())
    {
      hide Value, Weight;
      var minus := b.Negated();
      ValueBound(pn[..]);
      ValueBound(b.pn[..]);
      SubtractByNegation(Val(), b.Val(), Modulus());
      AddAssign(minus);
    }

    method MulAssign32(b32: Limb)
      modifies pn
      ensures Val() == (old(Val()) * b32) % Modulus()
    {
      hide Value, Weight, MulSoFar;
      ghost var x := pn[..];
      var carry: nat := 0;
      MulStart(pn[..0], x, b32);
      for i := 0 to pn.Length
        invariant pn[i..] == x[i..] && carry < BASE
        invariant MulSoFar(pn[..i], x, b32, carry)
      {
        assert pn[i] == pn[i..][0] == x[i..][0] == x[i];
        ghost var r := pn[..i];
        var n: nat := carry + b32 * pn[i];
        ProductFits(carry, 0, b32, pn[i]);
        assert n < U64;
        MulStep(r, x, b32, carry);
        pn[i] := n % BASE;
        carry := n / BASE;
        assert pn[..i + 1] == r + [n % BASE];
        assert x[i + 1..] == x[i..][1..];
        assert pn[i + 1..] == x[i + 1..];
      }
      assert pn[..pn.Length] == pn[..];
      MulDone(pn[..], x, b32, carry);
    }

    /** Row `j` of a long multiplication: add limb `j` of `this` times `b`, shifted by `j` limbs. */
    method AddRow(acc: Uint, b: Uint, j: nat, ghost k: nat) returns (ghost k': nat)
      requires acc.pn != pn && acc.pn != b.pn && j < pn.Length == b.pn.Length == acc.pn.Length
      requires RowsDone(acc.pn[..], pn[..], b.pn[..], j, k)
      modifies acc.pn
      ensures RowsDone(acc.pn[..], pn[..], b.pn[..], j + 1, k')
    {
      hide Value, Weight, RowSoFar, RowsDone;
      ghost var x, y, acc0 := pn[..], b.pn[..], acc.pn[..];
      var carry: nat := 0;
      RowStart(acc0, x, y, j);
      var i: nat := 0;
      while i + j < pn.Length
        invariant i + j <= pn.Length && carry < BASE
        invariant RowSoFar(acc.pn[..], acc0, x, y, j, i, carry)
      {
        ghost var before: seq<Limb> := acc.pn[..];
        RowStep(before, acc0, x, y, j, i, carry);
        ProductFits(carry, acc.pn[i + j], pn[j], b.pn[i]);
        var n: nat := carry + acc.pn[i + j] + (pn[j] as int) * b.pn[i];
        assert n < U64;
        var low: Limb := n % BASE;
        acc.pn[i + j] := low;
        carry := n / BASE;
        assert acc.pn[..] == before[i + j := low];
        i := i + 1;
      }
      k' := RowEnd(acc.pn[..], acc0, x, y, j, carry, k);
    }

    method MulAssign(b: Uint)
      requires b.pn.Length == pn.Length
      modifies pn
      ensures Val() == (old(Val()) * old(b.Val())) % Modulus()
    {
      hide Value, Weight, RowsDone;
      var acc := new Uint(pn.Length);
      ghost var x, y := pn[..], b.pn[..];
      NoRows(acc.pn[..], x, y);
      ghost var k: nat := 0;
      for j := 0 to pn.Length
        invariant pn[..] == x && b.pn[..] == y
        invariant RowsDone(acc.pn[..], x, y, j, k)
      {
        k := AddRow(acc, b, j, k);
      }
      AllRowsDone(acc.pn[..], x, y, k);
      Assign(acc);
    }

    method Assign(b: Uint)
      requires b.pn.Length == pn.Length
      modifies pn
      ensures pn[..] == old(b.pn[..])
    {
      ghost var y := b.pn[..];
      for i := 0 to pn.Length
        invariant forall j | 0 <= j < i :: pn[j] == y[j]
        invariant b.pn == pn || b.pn[..] == y
        invariant b.pn == pn ==> pn[..] == y
      {
        pn[i] := b.pn[i];
      }
    }

    method CompareTo(b: Uint) returns (r: int)
      requires b.pn.Length == pn.Length
      ensures r == if Val() < b.Val() then -1 else if Val() > b.Val() then 1 else 0
    {
      hide Value;
      var i := pn.Length;
      while i > 0
        invariant 0 <= i <= pn.Length
        invariant pn[i..] == b.pn[i..]
      {
        i := i - 1;
        if pn[i] < b.pn[i] {
          HigherLimbDecides(pn[..], b.pn[..], i);
          return -1;
        }
        if pn[i] > b.pn[i] {
          HigherLimbDecides(b.pn[..], pn[..], i);
          return 1;
        }
      }
      assert pn[..] == pn[0..] == b.pn[0..] == b.pn[..];
      r := 0;
    }

    method Clear()
      modifies pn
      ensures forall j | 0 <= j < pn.Length :: pn[j] == 0
      ensures Val() == 0
    {
      for i := 0 to pn.Length
        invariant forall j | 0 <= j < i :: pn[j] == 0
      {
        pn[i] := 0;
      }
      ValueZeros(pn[..]);
    }

    method ShiftLeftAssign(shift: nat)
      modifies pn
      ensures Val() == (old(Val()) * Pow(2, shift)) % Modulus()
    {
      hide Value, Weight, Pow, LeftSoFar, Or, High, Low;
      var a := new Uint.Copy(this);
      ghost var x: seq<Limb> := pn[..];
      Clear();
      var k, s := shift / 32, shift % 32;
      ghost var g: nat := 0;
      LeftStart(pn[..], x, k, s);
      for i := 0 to pn.Length
        invariant a.pn[..] == x && LeftSoFar(pn[..], x, k, s, i, g)
      {
        ghost var r: seq<Limb> := pn[..];
        g := LeftStepKeeps(r, x, k, s, i, g);
        ghost var r' := LeftStep(r, x[i], s, i + k);
        if i + k + 1 < pn.Length && s != 0 {
          assert r'[i + k + 1] == Or(r[i + k + 1], High(x[i], s));
          pn[i + k + 1] := Or(pn[i + k + 1], High(a.pn[i], s));
        }
        if i + k < pn.Length {
          assert r'[i + k] == Or(r[i + k], Low(x[i], s));
          pn[i + k] := Or(pn[i + k], Low(a.pn[i], s));
        }
        assert pn[..] == r';
      }
      LeftDone(pn[..], x, shift, g);
    }

    method ShiftRightAssign(shift: nat)
      modifies pn
      ensures Pow(2, shift) > 0 && Val() == old(Val()) / Pow(2, shift)
    {
      hide Value, Weight, Pow, RightSoFar, Or, Stays, Moves;
      var a := new Uint.Copy(this);
      ghost var x: seq<Limb> := pn[..];
      Clear();
      var k, s := shift / 32, shift % 32;
      ghost var rem: nat := 0;
      RightStart(pn[..], x, k, s);
      for i := 0 to pn.Length
        invariant a.pn[..] == x && RightSoFar(pn[..], x, k, s, i, rem)
      {
        ghost var r: seq<Limb> := pn[..];
        rem := RightStepKeeps(r, x, k, s, i, rem);
        ghost var r' := RightStep(r, x[i], s, i, k);
        if i - k - 1 >= 0 && s != 0 {
          assert r'[i - k - 1] == Or(r[i - k - 1], Moves(x[i], s));
          pn[i - k - 1] := Or(pn[i - k - 1], Moves(a.pn[i], s));
        }
        if i - k >= 0 {
          assert r'[i - k] == Or(r[i - k], Stays(x[i], s));
          pn[i - k] := Or(pn[i - k], Stays(a.pn[i], s));
        }
        assert pn[..] == r';
      }
      RightDone(pn[..], x, shift, rem);
    }

    method BitLength() returns (n: nat)
      ensures IsBitLength(Val(), n)
    {
      hide Value, Pow, IsBitLength;
      var pos := pn.Length;
      while pos > 0
        invariant 0 <= pos <= pn.Length
        invariant forall j | pos <= j < pn.Length :: pn[j] == 0
      {
        pos := pos - 1;
        if pn[pos] != 0 {
          var bits: nat := 31;
          PowersOfTwo();
          while bits > 0
            invariant bits <= 31 && pn[pos] < Pow(2, bits + 1)
          {
            TopBit(pn[pos], bits);
            if (pn[pos] / Pow(2, bits)) % 2 == 1 {
              TopLimb(pn[..], pos, bits);
              return 32 * pos + bits + 1;
            }
            bits := bits - 1;
          }
          PowZero();
          TopLimb(pn[..], pos, 0);
          return 32 * pos + 1;
        }
      }
      ValueZeros(pn[..]);
      n := 0;
      ZeroLength();
    }

    /**
     Division by shifting and subtracting.  Dividing by zero fails, after the number itself was already set to
     zero; otherwise the number becomes the quotient, and what is left over is the remainder.
     */
    method DivAssign(b: Uint) returns (ok: bool, ghost left: nat)
      requires b.pn.Length == pn.Length > 0
      modifies pn
      ensures ok <==> old(b.Val()) != 0
      ensures !ok ==> Val() == 0
      ensures ok ==> Val() == old(Val()) / old(b.Val()) && left == old(Val()) % old(b.Val())
    {
      hide Value, Weight, Pow, IsBitLength, Above, Dividing;
      var div := new Uint.Copy(b);
      var num := new Uint.Copy(this);
      ghost var n, d := Val(), b.Val();
      Clear();
      var numBits := num.BitLength();
      var divBits := div.BitLength();
      LengthZero(d, divBits);
      left := n;
      if divBits == 0 {
        return false, left;
      }
      ok := true;
      if divBits > numBits {
        Shorter(n, d, numBits, divBits);
        return;
      }
      var shift: int := numBits - divBits;
      ValueBound(num.pn[..]);
      Align(n, d, numBits, divBits, pn.Length);
      div.ShiftLeftAssign(shift);
      NoBits(pn[..], shift + 1);
      StartDividing(n, d, shift + 1);
      while shift >= 0
        invariant -1 <= shift < 32 * pn.Length
        invariant shift >= 0 ==> div.Val() == d * Pow(2, shift)
        invariant Above(pn[..], shift + 1) && Dividing(n, d, num.Val(), Val(), shift + 1)
      {
        shift := DivideStep(num, div, shift, n, d);
      }
      left := num.Val();
      DivisionDone(n, d, left, Val());
    }

    method DivideStep(num: Uint, div: Uint, shift: int, ghost n: nat, ghost d: nat) returns (next: int)
      requires pn != num.pn && pn != div.pn && num.pn != div.pn && num.pn.Length == div.pn.Length == pn.Length > 0
      requires 0 <= shift < 32 * pn.Length && div.Val() == d * Pow(2, shift)
      requires Above(pn[..], shift + 1) && Dividing(n, d, num.Val(), Val(), shift + 1)
      modifies pn, num.pn, div.pn
      ensures next == shift - 1
      ensures next >= 0 ==> div.Val() == d * Pow(2, next)
      ensures Above(pn[..], next + 1) && Dividing(n, d, num.Val(), Val(), next + 1)
    {
      hide Value, Weight, Pow, Above, Or;
      var order := num.CompareTo(div);
      if order >= 0 {
        TakeOut(n, d, num.Val(), Val(), shift);
        num.SubAssign(div);
        ghost var q: seq<Limb> := pn[..];
        SetBit(q, shift);
        var now: Limb := Or(pn[shift / 32], Pow(2, shift % 32));
        pn[shift / 32] := now;
        assert pn[..] == q[shift / 32 := now];
      } else {
        AboveWeaker(pn[..], shift);
      }
      if shift > 0 {
        HalfDivisor(d, shift);
      }
      div.ShiftRightAssign(1);
      next := shift - 1;
    }
  }

  lemma ZeroLength()
    ensures IsBitLength(0, 0)
  {
  }

  lemma LengthZero(v: nat, n: nat)
    requires IsBitLength(v, n)
    ensures n == 0 <==> v == 0
  {
  }

  lemma Shorter(n: nat, d: nat, nb: nat, db: nat)
    requires IsBitLength(n, nb) && IsBitLength(d, db) && nb < db
    ensures d > 0 && n / d == 0 && n % d == n
  {
    if n > 0 {
      PowMonotone(2, nb, db - 1);
    }
    DivUnique(0, n, d, n);
  }

  lemma StartDividing(n: nat, d: nat, t: nat)
    requires n < d * Pow(2, t)
    ensures Dividing(n, d, n, 0, t)
  {
  }

  lemma AddStart(x: seq<Limb>, y: seq<Limb>)
    ensures forall s: seq<Limb> | s == [] :: Value(s) == 0
    ensures x[..0] == [] && y[..0] == []
  {
  }

  /** A product of two limbs plus two limbs fits 64 bits, and its high half is a limb. */
  lemma ProductFits(carry: Limb, a: Limb, b: Limb, c: Limb)
    ensures 0 <= carry + a + b * c < U64 && (carry + a + b * c) / BASE < BASE
  {
    LimbProduct(b, c);
  }

  lemma LimbProduct(b: Limb, c: Limb)
    ensures 0 <= b * c <= (BASE - 1) * (BASE - 1)
  {
    MulLe(b, BASE - 1, c);
    MulLe(c, BASE - 1, BASE - 1);
  }

  lemma MulStart(r: seq<Limb>, x: seq<Limb>, b: nat)
    requires r == []
    ensures MulSoFar(r, x, b, 0)
  {
  }
}
