/** Numbers written in any base, least significant digit first. */
module Radix {
  import opened Powers
  import opened Arithmetic

  predicate Digits(b: nat, s: seq<nat>) { forall i | 0 <= i < |s| :: s[i] < b }

  function Val(b: nat, s: seq<nat>): nat {
    if s == [] then 0 else s[0] + b * Val(b, s[1..])
  }

  /** The digits of a number, without leading zeros. */
  function ToDigits(b: nat, v: nat): seq<nat>
    requires b > 1
  {
    if v == 0 then [] else DivSmaller(v, b); [v % b] + ToDigits(b, v / b)
  }

  lemma DivSmaller(v: nat, b: nat)
    requires b > 1 && v > 0
    ensures v / b < v
  {
    assert v == b * (v / b) + v % b;
    if v / b >= v {
      MulGrows2(b, v / b);
    }
  }

  lemma MulGrows2(b: nat, q: nat)
    requires b > 1 && q > 0
    ensures b * q > q
  {
    assert b * q == (b - 1) * q + q;
    MulPositive(b - 1, q);
  }

  lemma DivMod(b: nat, q: nat, r: nat)
    requires r < b
    ensures (r + b * q) / b == q && (r + b * q) % b == r
  {
    var v := r + b * q;
    assert v == b * (v / b) + v % b;
    var d := q - v / b;
    assert b * d == b * q - b * (v / b);
    if d > 0 {
      assert b * d == b * (d - 1) + b;
      MulNonNegative(b, d - 1);
    } else if d < 0 {
      assert b * (-d) == -(b * d);
      assert b * (-d) == b * (-d - 1) + b;
      MulNonNegative(b, -d - 1);
    }
  }

  lemma ToDigitsUnfolds(b: nat, v: nat)
    requires b > 1
    ensures ToDigits(b, 0) == []
    ensures v > 0 ==> ToDigits(b, v) == [v % b] + ToDigits(b, v / b)
  {
  }

  lemma Divides(v: nat, b: nat)
    requires b > 1
    ensures v == v % b + b * (v / b) && v % b < b && (v > 0 ==> v / b < v)
  {
    if v > 0 {
      DivSmaller(v, b);
    }
  }

  lemma {:induction false} ToDigitsVal(b: nat, v: nat)
    requires b > 1
    ensures Val(b, ToDigits(b, v)) == v && Digits(b, ToDigits(b, v))
    ensures v > 0 ==> ToDigits(b, v) != [] && ToDigits(b, v)[|ToDigits(b, v)| - 1] != 0
    decreases v
  {
    hide Val, Digits, ToDigits;
    ToDigitsUnfolds(b, v);
    if v == 0 {
      NoDigits(b);
    } else {
      Divides(v, b);
      ToDigitsVal(b, v / b);
      ToDigitsUnfolds(b, v / b);
      ConsVal(b, v % b, ToDigits(b, v / b));
      if v / b == 0 {
        assert b * 0 == 0;
      }
    }
  }

  lemma NoDigits(b: nat)
    ensures Val(b, []) == 0 && Digits(b, [])
  {
  }

  lemma ConsVal(b: nat, d: nat, s: seq<nat>)
    ensures Val(b, [d] + s) == d + b * Val(b, s)
    ensures d < b && Digits(b, s) ==> Digits(b, [d] + s)
    ensures s != [] ==> ([d] + s)[|s|] == s[|s| - 1]
  {
    assert ([d] + s)[1..] == s;
  }

  /** Digits that do not end in zero are the digits of their value. */
  lemma {:induction false} DigitsOfVal(b: nat, s: seq<nat>)
    requires b > 1 && Digits(b, s) && (s != [] ==> s[|s| - 1] != 0)
    ensures ToDigits(b, Val(b, s)) == s && (s != [] ==> Val(b, s) > 0)
    decreases |s|
  {
    if s != [] {
      DigitsTail(b, s);
      DigitsOfVal(b, s[1..]);
      DivMod(b, Val(b, s[1..]), s[0]);
      MulNonNegative(b, Val(b, s[1..]));
      if |s| > 1 {
        MulPositive(b, Val(b, s[1..]));
      }
      assert s == [s[0]] + s[1..];
    }
  }

  lemma DigitsTail(b: nat, s: seq<nat>)
    requires Digits(b, s) && s != []
    ensures Digits(b, s[1..]) && s[0] < b
  {
  }

  lemma {:induction false} ValBound(b: nat, s: seq<nat>)
    requires Digits(b, s) && b > 0
    ensures Val(b, s) < Pow(b, |s|)
    decreases |s|
  {
    if s != [] {
      DigitsTail(b, s);
      ValBound(b, s[1..]);
      BoundArith(b, s[0], Val(b, s[1..]), Pow(b, |s| - 1));
    }
  }

  lemma BoundArith(b: nat, d: nat, v: nat, p: nat)
    requires d < b && v < p
    ensures d + b * v < b * p
  {
    assert b * p == b * (p - 1) + b;
    assert b * (p - 1) == b * v + b * (p - 1 - v);
    MulNonNegative(b, p - 1 - v);
  }

  lemma {:induction false} ValPush(b: nat, s: seq<nat>, d: nat)
    ensures Val(b, s + [d]) == Val(b, s) + d * Pow(b, |s|)
    decreases |s|
  {
    if s == [] {
      assert s + [d] == [d] && [d][1..] == [];
      assert b * 0 == 0;
    } else {
      assert (s + [d])[1..] == s[1..] + [d];
      ValPush(b, s[1..], d);
      PushArith(b, Val(b, s[1..]), d, Pow(b, |s| - 1));
    }
  }

  lemma PushArith(b: nat, v: nat, d: nat, p: nat)
    ensures b * (v + d * p) == b * v + d * (b * p)
  {
    assert b * (d * p) == d * (b * p);
  }

  lemma {:induction false} ValConcat(b: nat, s: seq<nat>, t: seq<nat>)
    ensures Val(b, s + t) == Val(b, s) + Pow(b, |s|) * Val(b, t)
    decreases |s|
  {
    if s == [] {
      assert s + t == t;
    } else {
      assert (s + t)[1..] == s[1..] + t;
      ValConcat(b, s[1..], t);
      ConcatArith(b, Val(b, s[1..]), Pow(b, |s| - 1), Val(b, t));
    }
  }

  lemma ConcatArith(b: nat, v: nat, p: nat, t: nat)
    ensures b * (v + p * t) == b * v + (b * p) * t
  {
    assert b * (p * t) == (b * p) * t;
  }

  lemma {:induction false} ValZeros(b: nat, s: seq<nat>)
    requires forall i | 0 <= i < |s| :: s[i] == 0
    ensures Val(b, s) == 0
    decreases |s|
  {
    if s != [] {
      ValZeros(b, s[1..]);
    }
  }

  /** `n` digits are needed for `v`. */
  ghost predicate IsLength(b: nat, v: nat, n: nat) {
    if v == 0 then n == 0 else n > 0 && Pow(b, n - 1) <= v < Pow(b, n)
  }

  lemma LengthUnique(b: nat, v: nat, m: nat, n: nat)
    requires b > 0 && IsLength(b, v, m) && IsLength(b, v, n)
    ensures m == n
  {
    if v > 0 {
      if m < n {
        PowMonotone(b, m, n - 1);
      } else if n < m {
        PowMonotone(b, n, m - 1);
      }
    }
  }

  lemma LengthMonotone(b: nat, v: nat, w: nat, m: nat, n: nat)
    requires b > 0 && v <= w && IsLength(b, v, m) && IsLength(b, w, n)
    ensures m <= n
  {
    if m > n {
      if w == 0 {
      } else {
        PowMonotone(b, n, m - 1);
      }
    }
  }

  lemma {:induction false} ToDigitsLength(b: nat, v: nat)
    requires b > 1
    ensures IsLength(b, v, |ToDigits(b, v)|)
    decreases v
  {
    if v > 0 {
      ToDigitsVal(b, v);
      var s := ToDigits(b, v);
      ValBound(b, s);
      var n := |s| - 1;
      assert s == s[..n] + [s[n]];
      ValPush(b, s[..n], s[n]);
      PowPositive(b, n);
      MulGrows(Pow(b, n), s[n]);
      assert Pow(b, n) * s[n] == s[n] * Pow(b, n);
    }
  }

  /** A number in a buffer: the digits it needs, then zeros. */
  lemma BufferIs(b: nat, s: seq<nat>, n: nat)
    requires b > 1 && Digits(b, s) && IsLength(b, Val(b, s), n)
    ensures n <= |s| && s[..n] == ToDigits(b, Val(b, s)) && forall i | n <= i < |s| :: s[i] == 0
  {
    var k := Significant(s);
    assert s == s[..k] + s[k..];
    ValConcat(b, s[..k], s[k..]);
    ValZeros(b, s[k..]);
    assert Pow(b, k) * 0 == 0;
    DigitsOfVal(b, s[..k]);
    ToDigitsLength(b, Val(b, s));
    LengthUnique(b, Val(b, s), k, n);
  }

  /** Where the zeros at the end begin. */
  lemma {:induction false} Significant(s: seq<nat>) returns (k: nat)
    ensures k <= |s| && (forall i | k <= i < |s| :: s[i] == 0) && (k > 0 ==> s[k - 1] != 0)
    decreases |s|
  {
    if s == [] || s[|s| - 1] != 0 {
      k := |s|;
    } else {
      var n := |s| - 1;
      k := Significant(s[..n]);
      forall i | k <= i < |s| ensures s[i] == 0 {
        if i < n {
          assert s[i] == s[..n][i];
        }
      }
    }
  }

  // ----- comparing powers of different bases -----

  lemma {:induction false} PowPow(b: nat, e: nat, f: nat)
    ensures Pow(Pow(b, e), f) == Pow(b, e * f)
    decreases f
  {
    if f > 0 {
      PowPow(b, e, f - 1);
      PowAdd(b, e, e * (f - 1));
      assert e * f == e + e * (f - 1);
    } else {
      assert e * 0 == 0;
    }
  }

  lemma {:induction false} PowBaseMonotone(a: nat, b: nat, e: nat)
    requires a <= b
    ensures Pow(a, e) <= Pow(b, e)
    decreases e
  {
    if e > 0 {
      PowBaseMonotone(a, b, e - 1);
      ProductMonotone(a, b, Pow(a, e - 1), Pow(b, e - 1));
    }
  }

  lemma ProductMonotone(a: nat, b: nat, p: nat, q: nat)
    requires a <= b && p <= q
    ensures a * p <= b * q
  {
    assert b * q - a * p == (b - a) * q + a * (q - p);
    MulNonNegative(b - a, q);
    MulNonNegative(a, q - p);
  }

  lemma {:induction false} PowBaseStrict(a: nat, b: nat, e: nat)
    requires a < b && e > 0
    ensures Pow(a, e) < Pow(b, e)
    decreases e
  {
    if e == 1 {
      assert Pow(a, 0) == 1 && Pow(b, 0) == 1;
    } else {
      PowBaseStrict(a, b, e - 1);
      StrictArith(a, b, Pow(a, e - 1), Pow(b, e - 1));
    }
  }

  lemma StrictArith(a: nat, b: nat, p: nat, q: nat)
    requires a < b && p < q
    ensures a * p < b * q
  {
    ProductMonotone(a, b - 1, p, q);
    assert b * q == (b - 1) * q + q;
  }

  /** From one comparison of powers to all: if `a^k <= b^m` and `m * n <= k * size` then `a^n <= b^size`. */
  lemma PowersCompare(a: nat, b: nat, k: nat, m: nat, n: nat, size: nat)
    requires b > 0 && k > 0 && Pow(a, k) <= Pow(b, m) && m * n <= k * size
    ensures Pow(a, n) <= Pow(b, size)
  {
    hide Pow;
    RaiseBoth(a, b, k, m, n, size);
    if Pow(a, n) > Pow(b, size) {
      PowBaseStrict(Pow(b, size), Pow(a, n), k);
    }
  }

  ghost predicate Times(a: nat, b: nat, p: nat) { p == a * b }

  lemma PowTimes(b: nat, e: nat, f: nat, p: nat)
    requires Times(e, f, p)
    ensures Pow(Pow(b, e), f) == Pow(b, p)
  {
    PowPow(b, e, f);
  }

  lemma RaiseBoth(a: nat, b: nat, k: nat, m: nat, n: nat, size: nat)
    requires b > 0 && Pow(a, k) <= Pow(b, m) && m * n <= k * size
    ensures Pow(Pow(a, n), k) <= Pow(Pow(b, size), k)
  {
    Commutes(k, n, size);
    MulNonNegative(k, n);
    MulNonNegative(m, n);
    MulNonNegative(k, size);
    RaiseTimes(a, b, k, m, n, size, k * n, m * n, k * size);
  }

  lemma RaiseTimes(a: nat, b: nat, k: nat, m: nat, n: nat, size: nat, kn: nat, mn: nat, ks: nat)
    requires b > 0 && Pow(a, k) <= Pow(b, m) && mn <= ks
    requires Times(k, n, kn) && Times(n, k, kn) && Times(m, n, mn) && Times(size, k, ks)
    ensures Pow(Pow(a, n), k) <= Pow(Pow(b, size), k)
  {
    hide *;
    PowTimes(a, k, n, kn);
    PowTimes(b, m, n, mn);
    PowBaseMonotone(Pow(a, k), Pow(b, m), n);
    PowMonotone(b, mn, ks);
    PowTimes(a, n, k, kn);
    PowTimes(b, size, k, ks);
  }

  lemma Commutes(k: nat, n: nat, size: nat)
    ensures k * n == n * k && k * size == size * k
  {
  }
}
