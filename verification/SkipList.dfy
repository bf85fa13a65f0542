/**
 The skip heights of `src/chain.cpp` and how many steps a lookup along them takes: at most 110 for going back up
 to 2^18 blocks, as the code says from simulations, and never more than about a quarter of the square of the bits
 of the height.
 */
module SkipList {
  import opened Powers
  import opened Arithmetic

  // ----- skip heights -----

  /** Bitwise and. */
  function And(x: nat, y: nat): nat {
    if x == 0 then 0 else 2 * And(x / 2, y / 2) + if x % 2 == 1 && y % 2 == 1 then 1 else 0
  }

  lemma {:induction false} AndBound(x: nat, y: nat)
    ensures And(x, y) <= x && And(x, y) <= y
  {
    if x != 0 {
      AndBound(x / 2, y / 2);
    }
  }

  /** Turn the lowest '1' bit into a '0'. */
  function InvertLowestOne(n: nat): nat { if n == 0 then 0 else And(n, n - 1) }

  function GetSkipHeight(height: nat): nat {
    if height < 2 then 0
    else if height % 2 == 1 then InvertLowestOne(InvertLowestOne(height - 1)) + 1
    else InvertLowestOne(height)
  }

  /** A skip always goes back, so the lookup makes progress. */
  lemma SkipGoesBack(height: nat)
    requires height > 0
    ensures GetSkipHeight(height) < height
  {
    if height >= 2 {
      var n := if height % 2 == 1 then height - 1 else height;
      AndBound(n, n - 1);
      var m := InvertLowestOne(n);
      if m > 0 {
        AndBound(m, m - 1);
      }
    }
  }

  /** The lowest bit really is what goes: everything above it stays. */
  lemma {:induction false} InvertLowestOneIs(m: nat, k: nat)
    ensures InvertLowestOne((2 * m + 1) * Pow(2, k)) == (2 * m) * Pow(2, k)
  {
    var n := (2 * m + 1) * Pow(2, k);
    if k == 0 {
      assert n / 2 == m && (n - 1) / 2 == m && (n - 1) % 2 == 0;
      AndSelf(m);
    } else {
      InvertLowestOneIs(m, k - 1);
      PowPositive(2, k - 1);
      var h := (2 * m + 1) * Pow(2, k - 1);
      assert n == 2 * h by { Doubling(2 * m + 1, Pow(2, k - 1)); }
      assert h > 0 by { OddPositive(m, Pow(2, k - 1)); }
      assert (n - 1) / 2 == h - 1 && n / 2 == h && n % 2 == 0;
      Doubling(2 * m, Pow(2, k - 1));
    }
  }

  lemma Doubling(a: nat, t: nat)
    ensures a * (2 * t) == 2 * (a * t)
  {
  }

  lemma OddPositive(m: nat, t: nat)
    requires t > 0
    ensures (2 * m + 1) * t > 0
  {
    assert (2 * m + 1) * t == (2 * m) * t + t;
  }

  lemma {:induction false} AndSelf(m: nat)
    ensures And(m, m) == m
  {
    if m != 0 {
      AndSelf(m / 2);
    }
  }

  // ----- the lookup on heights -----

  /** Where a lookup of `target` goes from `height`: along the skip link, unless the parent's is better. */
  function Move(height: nat, target: nat): (r: nat)
    requires target < height
    ensures target <= r < height
  {
    SkipGoesBack(height);
    var skip, skipPrev := GetSkipHeight(height), GetSkipHeight(height - 1);
    if skip == target || (skip > target && !(skipPrev < skip - 2 && skipPrev >= target)) then skip else height - 1
  }

  /** How many steps the lookup takes. */
  function Cost(height: nat, target: nat): nat
    requires target <= height
  {
    if height == target then 0 else 1 + Cost(Move(height, target), target)
  }

  // ----- clearing the lowest bit -----

  lemma InvertEven(a: nat)
    requires a > 0
    ensures InvertLowestOne(2 * a) == 2 * InvertLowestOne(a)
  {
    assert (2 * a) / 2 == a && (2 * a - 1) / 2 == a - 1;
  }

  lemma InvertOdd(a: nat)
    ensures InvertLowestOne(2 * a + 1) == 2 * a
  {
    assert (2 * a + 1) / 2 == a && (2 * a) / 2 == a;
    AndSelf(a);
  }

  lemma InvertShrinks(n: nat)
    ensures InvertLowestOne(n) <= n && (n > 0 ==> InvertLowestOne(n) < n)
  {
    if n > 0 {
      AndBound(n, n - 1);
    }
  }

  /** `b` is a multiple of two to the power of `k`. */
  predicate Multiple(b: nat, k: nat) {
    k == 0 || (b % 2 == 0 && Multiple(b / 2, k - 1))
  }

  /** Below a multiple's unit, clearing a bit leaves the multiple alone. */
  lemma {:induction false} InvertBelow(b: nat, x: nat, k: nat)
    requires Multiple(b, k) && 0 < x < Pow(2, k)
    ensures InvertLowestOne(b + x) == b + InvertLowestOne(x)
  {
    hide InvertLowestOne;
    if k > 0 {
      var c, a := b / 2, x / 2;
      if x % 2 == 1 {
        InvertOdd(c + a);
        InvertOdd(a);
      } else {
        InvertBelow(c, a, k - 1);
        InvertEven(c + a);
        InvertEven(a);
      }
    }
  }

  lemma {:induction false} InvertMultiple(b: nat, k: nat)
    requires Multiple(b, k) && b > 0
    ensures InvertLowestOne(b) + Pow(2, k) <= b && Multiple(InvertLowestOne(b), k)
  {
    hide InvertLowestOne;
    if k == 0 {
      InvertShrinks(b);
    } else {
      InvertMultiple(b / 2, k - 1);
      InvertEven(b / 2);
    }
  }

  lemma {:induction false} InvertPower(k: nat)
    ensures InvertLowestOne(Pow(2, k)) == 0
  {
    hide InvertLowestOne;
    if k == 0 {
      InvertOdd(0);
    } else {
      PowPositive(2, k - 1);
      InvertPower(k - 1);
      InvertEven(Pow(2, k - 1));
    }
  }

  lemma {:induction false} MultipleHalves(b: nat, k: nat)
    requires Multiple(b, k) && k > 0
    ensures Multiple(b, k - 1) && Multiple(b + Pow(2, k - 1), k - 1)
  {
    if k > 1 {
      MultipleHalves(b / 2, k - 1);
      assert (b + Pow(2, k - 1)) / 2 == b / 2 + Pow(2, k - 2);
    }
  }

  lemma {:induction false} ZeroIsMultiple(k: nat)
    ensures Multiple(0, k)
  {
    if k > 0 {
      ZeroIsMultiple(k - 1);
    }
  }

  // ----- remainders -----

  lemma Remainders(x: nat)
    ensures x % 4 == (x % 8) % 4 && x % 2 == (x % 8) % 2
  {
    var q, r := x / 8, x % 8;
    assert x == 8 * q + r;
    DivUnique(2 * q + r / 4, r % 4, 4, x);
    DivUnique(4 * q + r / 2, r % 2, 2, x);
  }

  lemma Less(x: nat, c: nat)
    requires c <= x % 8
    ensures x >= c && (x - c) % 8 == x % 8 - c
  {
    assert x == 8 * (x / 8) + x % 8;
    DivUnique(x / 8, x % 8 - c, 8, x - c);
  }

  lemma More(x: nat, c: nat)
    requires x % 8 + c < 8
    ensures (x + c) % 8 == x % 8 + c
  {
    assert x == 8 * (x / 8) + x % 8;
    DivUnique(x / 8, x % 8 + c, 8, x + c);
  }

  lemma BothEven(m: nat, x: nat)
    requires m % 2 == 0 && x % 2 == 0
    ensures (m + x) % 2 == 0
  {
    DivUnique(m / 2 + x / 2, 0, 2, m + x);
  }

  lemma Above(m: nat, x: nat)
    requires m % 8 == 0
    ensures (m + x) % 8 == x % 8
  {
    assert m == 8 * (m / 8) && x == 8 * (x / 8) + x % 8;
    DivUnique(m / 8 + x / 8, x % 8, 8, m + x);
  }

  lemma PlusTwo(z: nat)
    requires z % 4 == 0
    ensures z % 2 == 0 && (z + 2) % 2 == 0 && (z + 2) % 4 == 2
  {
    var q := z / 4;
    assert z == 4 * q;
    DivUnique(2 * q, 0, 2, z);
    DivUnique(2 * q + 1, 0, 2, z + 2);
    DivUnique(q, 2, 4, z + 2);
  }

  lemma MinusFour(h: nat)
    requires h % 4 == 0 && h >= 4
    ensures (h - 4) % 4 == 0
  {
    var q := h / 4;
    assert h == 4 * q;
    DivUnique(q - 1, 0, 4, h - 4);
  }

  // ----- counting bits -----

  function Ones(n: nat): nat {
    if n == 0 then 0 else n % 2 + Ones(n / 2)
  }

  /** A bit is cleared. */
  lemma {:induction false} OnesInvert(n: nat)
    requires n > 0
    ensures Ones(n) == 1 + Ones(InvertLowestOne(n))
  {
    hide InvertLowestOne;
    var a := n / 2;
    if n % 2 == 1 {
      InvertOdd(a);
      OnesDouble(a);
    } else {
      OnesInvert(a);
      InvertEven(a);
      OnesDouble(InvertLowestOne(a));
    }
  }

  lemma OnesDouble(a: nat)
    ensures Ones(2 * a) == Ones(a)
  {
  }

  lemma {:induction false} OnesBound(n: nat, k: nat)
    requires n < Pow(2, k)
    ensures Ones(n) <= k
  {
    if n > 0 {
      OnesBound(n / 2, k - 1);
    }
  }

  lemma {:induction false} OnesBoundAbove(n: nat, j: nat, k: nat)
    requires Multiple(n, j) && n < Pow(2, k) && j <= k
    ensures Ones(n) <= k - j
  {
    if j == 0 {
      OnesBound(n, k);
    } else if n > 0 {
      OnesBoundAbove(n / 2, j - 1, k - 1);
    }
  }

  // ----- one move -----

  /** From an odd height the parent's skip is never better. */
  lemma OddMove(h: nat, t: nat)
    requires h % 2 == 1 && t < h && h >= 3
    ensures GetSkipHeight(h) == InvertLowestOne(InvertLowestOne(h - 1)) + 1
    ensures Move(h, t) == if GetSkipHeight(h) >= t then GetSkipHeight(h) else h - 1
  {
    hide InvertLowestOne;
    InvertShrinks(h - 1);
    InvertShrinks(InvertLowestOne(h - 1));
  }

  lemma EvenMove(h: nat, t: nat)
    requires h % 2 == 0 && t < h
    ensures GetSkipHeight(h) == InvertLowestOne(h)
    ensures InvertLowestOne(h) < t ==> Move(h, t) == h - 1
    ensures InvertLowestOne(h) == t ==> Move(h, t) == t
    ensures Move(h, t) == InvertLowestOne(h) || Move(h, t) == h - 1
  {
  }

  /** Which way a lookup goes from a height whose skip is above the target. */
  lemma EitherWay(h: nat, t: nat)
    requires t < GetSkipHeight(h) && t < h
    ensures
      var skip, skipPrev := GetSkipHeight(h), GetSkipHeight(h - 1);
      Move(h, t) == if t <= skipPrev < skip - 2 then h - 1 else skip
  {
    hide GetSkipHeight;
  }

  lemma Next(h: nat, t: nat)
    requires t < h
    ensures Cost(h, t) == 1 + Cost(Move(h, t), t)
  {
  }

  lemma OneAbove(b: nat, t: nat)
    requires b <= t <= b + 1
    ensures Cost(b + 1, t) <= 1
  {
    if t == b {
      Next(b + 1, b);
    }
  }

  // ----- a block of heights and its halves -----

  /** The longest lookup from the top of a block of 2^k heights. */
  function TopBound(k: nat): nat {
    if k <= 2 then k else if k == 3 then 4 else TopBound(k - 1) + (k + 3) / 2
  }

  /** A block of 2^k heights from `b` on, and a target in its lower half. */
  predicate Lower(b: nat, k: nat, t: nat) {
    k >= 2 && Multiple(b, k) && b <= t < Middle(b, k)
  }

  /** And a number of steps, at least one, that is enough from the last height of the lower half. */
  ghost predicate Within(b: nat, k: nat, t: nat, most: nat) {
    Lower(b, k, t) && most >= 1 && Cost(Middle(b, k) - 1, t) <= most
  }

  /** The first height of the upper half. */
  function Middle(b: nat, k: nat): (m: nat)
    requires k > 0
    ensures b < m
  {
    PowPositive(2, k - 1);
    b + Pow(2, k - 1)
  }

  lemma MiddleFacts(b: nat, k: nat)
    requires k >= 2 && Multiple(b, k)
    ensures var m := Middle(b, k);
            && m % 2 == 0 && b % 2 == 0 && m >= 2 && InvertLowestOne(m) == b && Multiple(m, k - 1)
            && Multiple(b, k - 1) && (b > 0 ==> InvertLowestOne(b) + 3 <= b) && InvertLowestOne(0) == 0
  {
    hide InvertLowestOne;
    PowPositive(2, k - 2);
    InvertBelow(b, Pow(2, k - 1), k);
    InvertPower(k - 1);
    MultipleHalves(b, k);
    InvertShrinks(0);
    if b > 0 {
      InvertMultiple(b, k);
    }
  }

  lemma InvertUpper(b: nat, k: nat, x: nat)
    requires k >= 2 && Multiple(b, k) && 0 < x < Pow(2, k - 1)
    ensures InvertLowestOne(Middle(b, k) + x) == Middle(b, k) + InvertLowestOne(x)
  {
    hide InvertLowestOne;
    MultipleHalves(b, k);
    InvertBelow(Middle(b, k), x, k - 1);
  }

  lemma EvenClears(y: nat)
    requires y > 0 && y % 2 == 0
    ensures var x := InvertLowestOne(y); x % 2 == 0 && x < y && Ones(y) == 1 + Ones(x)
  {
    hide InvertLowestOne, Ones;
    OnesInvert(y);
    InvertEven(y / 2);
    InvertShrinks(y);
  }

  lemma {:induction false} OnesPositive(n: nat)
    ensures Ones(n) == 0 <==> n == 0
  {
    if n > 0 {
      OnesPositive(n / 2);
    }
  }

  /** Clearing two bits of an even height of the upper half, by how many there are below the middle. */
  lemma ClearsTwo(b: nat, k: nat, y: nat)
    requires k >= 2 && Multiple(b, k) && y % 2 == 0 && y < Pow(2, k - 1)
    ensures
      var m, s := Middle(b, k), InvertLowestOne(InvertLowestOne(Middle(b, k) + y));
      && (Ones(y) == 0 ==> y == 0 && s == InvertLowestOne(b))
      && (Ones(y) == 1 ==> s == b && InvertLowestOne(y) == 0)
      && (Ones(y) >= 2 ==>
            && var z := InvertLowestOne(InvertLowestOne(y));
            s == m + z && z % 2 == 0 && z < InvertLowestOne(y) < y && Ones(z) == Ones(y) - 2)
  {
    hide *;
    MiddleFacts(b, k);
    OnesPositive(y);
    if y > 0 {
      var x := InvertLowestOne(y);
      InvertUpper(b, k, y);
      EvenClears(y);
      OnesPositive(x);
      if x > 0 {
        InvertUpper(b, k, x);
        EvenClears(x);
      }
    }
  }

  /** Where a lookup goes from an odd height of the upper half, by how many bits are left to clear. */
  lemma OddSkip(b: nat, k: nat, y: nat, t: nat)
    requires Lower(b, k, t) && y % 2 == 0 && y + 1 < Pow(2, k - 1)
    ensures
      var m, r := Middle(b, k), Move(Middle(b, k) + y + 1, t);
      && (Ones(y) == 0 ==> y == 0 && (r == b + 1 || r == m) && (r == b + 1 ==> t <= b + 1))
      && (Ones(y) == 1 ==> r == if t <= b + 1 then b + 1 else m + y)
      && (Ones(y) >= 2 ==>
            && var z := InvertLowestOne(InvertLowestOne(y));
            r == m + z + 1 && z % 2 == 0 && z < y && Ones(z) == Ones(y) - 2)
  {
    hide InvertLowestOne, Ones, Move, Multiple, Pow, Middle, GetSkipHeight;
    MiddleFacts(b, k);
    ClearsTwo(b, k, y);
    OddMove(Middle(b, k) + y + 1, t);
  }

  // ----- from the middle, from odd heights, and from the top -----

  lemma MiddleCost(b: nat, k: nat, t: nat, most: nat)
    requires Within(b, k, t, most)
    ensures t <= Middle(b, k) && Cost(Middle(b, k), t) <= 1 + most
  {
    hide InvertLowestOne, Ones, Move, Multiple, Middle, GetSkipHeight, Cost;
    MiddleFacts(b, k);
    var m := Middle(b, k);
    EvenMove(m, t);
    Next(m, t);
    if t == b {
      CostNothing(t);
    }
  }

  lemma MiddleIs(b: nat, k: nat)
    requires k > 0
    ensures Middle(b, k) == b + Pow(2, k - 1) && Pow(2, k) == 2 * Pow(2, k - 1)
  {
  }

  lemma CostNothing(t: nat)
    ensures Cost(t, t) == 0
  {
  }

  /** With one bit left to clear: straight to the bottom, or by way of the middle. */
  lemma OneBitLeft(b: nat, k: nat, y: nat, t: nat)
    requires Lower(b, k, t) && y % 2 == 0 && y + 1 < Pow(2, k - 1) && Ones(y) == 1
    ensures var m := Middle(b, k);
            && t <= m && Cost(m + y + 1, t) <= if t <= b + 1 then 2 else 2 + Cost(m, t)
  {
    hide InvertLowestOne, Ones, Move, Multiple, Pow, Middle, GetSkipHeight, Cost;
    var m := Middle(b, k);
    OddSkip(b, k, y, t);
    Next(m + y + 1, t);
    if t <= b + 1 {
      OneAbove(b, t);
    } else {
      LoneBit(b, k, y, t);
      Next(m + y, t);
    }
  }

  // ----- the parent's skip -----

  lemma InvertTwo(n: nat)
    requires n % 4 == 2
    ensures InvertLowestOne(n) == n - 2
  {
    hide InvertLowestOne;
    InvertOdd(n / 4);
    InvertEven(n / 2);
  }

  lemma InvertFour(n: nat)
    requires n % 8 == 4
    ensures InvertLowestOne(n) == n - 4
  {
    hide InvertLowestOne;
    InvertTwo(n / 2);
    InvertEven(n / 2);
  }

  lemma MultipleMod(m: nat, j: nat)
    requires Multiple(m, j)
    ensures j >= 2 ==> m % 4 == 0
    ensures j >= 3 ==> m % 8 == 0
  {
    if j >= 2 {
      assert (m / 2) % 2 == 0;
      if j >= 3 {
        assert (m / 2 / 2) % 2 == 0;
      }
    }
  }

  lemma PowRoom(k: nat, x: nat)
    requires x < Pow(2, k)
    ensures x >= 2 ==> k >= 2
    ensures x >= 4 ==> k >= 3
  {
    assert Pow(2, 0) == 1 && Pow(2, 1) == 2 && Pow(2, 2) == 4;
  }

  /** A height above the middle that uses bit 1 or 2 shows how many low bits the middle has clear. */
  lemma MiddleClear(b: nat, k: nat, x: nat)
    requires k >= 2 && Multiple(b, k) && 0 < x < Pow(2, k - 1)
    ensures x >= 2 ==> Middle(b, k) % 4 == 0
    ensures x >= 4 ==> Middle(b, k) % 8 == 0
  {
    hide *;
    MiddleFacts(b, k);
    PowRoom(k - 1, x);
    MultipleMod(Middle(b, k), k - 1);
  }

  lemma SkipOfOdd(h: nat)
    requires h % 2 == 1 && h >= 3
    ensures GetSkipHeight(h) == InvertLowestOne(InvertLowestOne(h - 1)) + 1
  {
    hide InvertLowestOne;
  }

  lemma BelowTwo(h: nat)
    requires h % 2 == 0 && h >= 4
    ensures GetSkipHeight(h - 1) == InvertLowestOne(InvertLowestOne(h - 2)) + 1
  {
    hide InvertLowestOne;
    DivUnique(h / 2 - 1, 1, 2, h - 1);
    SkipOfOdd(h - 1);
  }

  lemma BelowFour(h: nat)
    requires h % 4 == 0 && h >= 4
    ensures GetSkipHeight(h - 1) == InvertLowestOne(h - 4) + 1
  {
    hide InvertLowestOne, GetSkipHeight;
    MinusFour(h);
    PlusTwo(h - 4);
    PlusTwo(h);
    BelowTwo(h);
    InvertTwo(h - 2);
  }

  lemma BelowEight(h: nat)
    requires h % 8 == 0 && h >= 8
    ensures GetSkipHeight(h - 1) == h - 7
  {
    hide InvertLowestOne, GetSkipHeight;
    Remainders(h);
    BelowFour(h);
    DivUnique(h / 8 - 1, 4, 8, h - 4);
    InvertFour(h - 4);
  }

  /** The skip height just below an even height, by the lowest bit of that height. */
  lemma PrevSkip(b: nat, k: nat, x: nat)
    requires k >= 2 && Multiple(b, k) && 0 < x < Pow(2, k - 1) && x % 2 == 0
    ensures
      var m, s := Middle(b, k), GetSkipHeight(Middle(b, k) + x - 1);
      && (x % 8 == 0 ==> s == m + x - 7)
      && (x % 8 == 4 ==> s == InvertLowestOne(m + (x - 4)) + 1)
      && (x % 4 == 2 ==> s == InvertLowestOne(InvertLowestOne(m + (x - 2))) + 1)
  {
    hide *;
    MiddleFacts(b, k);
    MiddleClear(b, k, x);
    var m := Middle(b, k);
    Remainders(x);
    if x % 8 == 0 {
      Above(m, x);
      BelowEight(m + x);
    } else if x % 8 == 4 {
      Above(m, x);
      Remainders(m + x);
      BelowFour(m + x);
    } else {
      BothEven(m, x);
      BelowTwo(m + x);
    }
  }

  lemma LoneIs(y: nat)
    requires Ones(y) == 1
    ensures y % 4 == 2 ==> y == 2
    ensures y % 8 == 4 ==> y == 4
  {
    hide InvertLowestOne, Ones;
    OnesPositive(y);
    OnesInvert(y);
    OnesPositive(InvertLowestOne(y));
    if y % 4 == 2 {
      InvertTwo(y);
    } else if y % 8 == 4 {
      InvertFour(y);
    }
  }

  /** From a lone bit above the middle a lookup for anything but the two lowest heights skips to the middle. */
  lemma LoneBit(b: nat, k: nat, y: nat, t: nat)
    requires Lower(b, k, t) && y % 2 == 0 && y < Pow(2, k - 1) && Ones(y) == 1 && t >= b + 2
    ensures t < Middle(b, k) + y && Move(Middle(b, k) + y, t) == Middle(b, k)
  {
    hide InvertLowestOne, Ones, Pow, Multiple, Middle, GetSkipHeight, Move;
    var m := Middle(b, k);
    OnesPositive(y);
    LonePrev(b, k, y);
    LoneSkip(b, k, y);
    EitherWay(m + y, t);
  }

  lemma LoneSkip(b: nat, k: nat, y: nat)
    requires k >= 2 && Multiple(b, k) && y % 2 == 0 && 0 < y < Pow(2, k - 1) && Ones(y) == 1
    ensures GetSkipHeight(Middle(b, k) + y) == Middle(b, k)
  {
    hide *;
    MiddleFacts(b, k);
    ClearsTwo(b, k, y);
    InvertUpper(b, k, y);
    BothEven(Middle(b, k), y);
    SkipOfEven(Middle(b, k) + y);
  }

  lemma LonePrev(b: nat, k: nat, y: nat)
    requires k >= 2 && Multiple(b, k) && y % 2 == 0 && 0 < y < Pow(2, k - 1) && Ones(y) == 1
    ensures var s := GetSkipHeight(Middle(b, k) + y - 1); s <= b + 1 || s > Middle(b, k)
  {
    hide *;
    MiddleFacts(b, k);
    PrevSkip(b, k, y);
    LoneIs(y);
    Remainders(y);
    InvertShrinks(b);
  }

  lemma SkipOfEven(h: nat)
    requires h % 2 == 0 && h > 0
    ensures GetSkipHeight(h) == InvertLowestOne(h)
  {
  }

  lemma {:induction false} OddCost(b: nat, k: nat, y: nat, t: nat, most: nat)
    requires Within(b, k, t, most) && y % 2 == 0 && y + 1 < Pow(2, k - 1)
    ensures Cost(Middle(b, k) + y + 1, t) <= (Ones(y) + 5) / 2 + most
    decreases y
  {
    hide InvertLowestOne, Ones, Move, Multiple, Pow, Middle, GetSkipHeight, Cost;
    var m := Middle(b, k);
    MiddleCost(b, k, t, most);
    OddSkip(b, k, y, t);
    Next(m + y + 1, t);
    if Ones(y) >= 2 {
      OddCost(b, k, InvertLowestOne(InvertLowestOne(y)), t, most);
    } else if Ones(y) == 1 {
      OneBitLeft(b, k, y, t);
    } else if Move(m + 1, t) == b + 1 {
      OneAbove(b, t);
    }
  }

  lemma TopOnes(k: nat)
    requires k >= 2
    ensures var y := Pow(2, k - 1) - 2; y >= 0 && y % 2 == 0 && Ones(y) <= k - 2
  {
    hide *;
    PowPositive(2, k - 2);
    PowNext(2, k - 2);
    var a: nat := Pow(2, k - 2) - 1;
    DoubleIsEven(a);
    OnesDouble(a);
    OnesBound(a, k - 2);
  }

  lemma DoubleIsEven(a: nat)
    ensures (2 * a) % 2 == 0
  {
  }

  /** From the top of a block down to any height of it. */
  lemma {:induction false} TopCost(b: nat, k: nat, t: nat)
    requires Multiple(b, k) && b <= t < b + Pow(2, k)
    ensures Cost(b + Pow(2, k) - 1, t) <= TopBound(k)
    decreases k
  {
    hide InvertLowestOne, Ones, Move, Multiple, GetSkipHeight, Cost;
    if k == 0 {
      CostNothing(t);
    } else if k == 1 {
      OneAbove(b, t);
    } else {
      MultipleHalves(b, k);
      MiddleIs(b, k);
      var m := Middle(b, k);
      if t >= m {
        TopCost(m, k - 1, t);
      } else if k == 2 {
        TopOfFour(b, t);
      } else if k == 3 {
        TopOfEight(b, t);
      } else {
        TopOnes(k);
        TopCost(b, k - 1, t);
        TopPositive(k - 1);
        OddCost(b, k, Pow(2, k - 1) - 2, t, TopBound(k - 1));
      }
    }
  }

  lemma TopOfFour(b: nat, t: nat)
    requires Multiple(b, 2) && b <= t < b + 2
    ensures Cost(b + 3, t) <= 2
    ensures Cost(b + 2, t) <= 1
  {
    hide InvertLowestOne, Ones, Multiple, Move, GetSkipHeight, Cost;
    MiddleFour(b);
    MiddleFacts(b, 2);
    OddSkip(b, 2, 0, t);
    Next(b + 3, t);
    EvenMove(b + 2, t);
    Next(b + 2, t);
    OneAbove(b, t);
    CostNothing(t);
    OnesPositive(0);
  }

  lemma MiddleFour(b: nat)
    ensures Middle(b, 2) == b + 2 && Middle(b, 3) == b + 4 && Pow(2, 1) == 2 && Pow(2, 2) == 4
  {
    assert Pow(2, 1) == 2 && Pow(2, 2) == 4;
  }

  lemma TopOfEight(b: nat, t: nat)
    requires Multiple(b, 3) && b <= t < b + 4
    ensures Cost(b + 7, t) <= 4
  {
    hide InvertLowestOne, Ones, Multiple, Move, GetSkipHeight, Cost;
    MiddleFour(b);
    MiddleFacts(b, 3);
    OneOfTwo();
    OneBitLeft(b, 3, 2, t);
    if t >= b + 2 {
      EvenMove(b + 4, t);
      Next(b + 4, t);
      CostNothing(t);
      if t < b + 3 {
        Next(b + 3, t);
      }
    }
  }

  lemma OneOfTwo()
    ensures Ones(2) == 1
  {
  }

  // ----- from anywhere -----

  /** From the middle up to the last height whose three low bits are clear, one bit at a time. */
  lemma {:induction false} EightsCost(b: nat, k: nat, x: nat, t: nat, most: nat)
    requires Within(b, k, t, most) && x % 8 == 0 && x < Pow(2, k - 1)
    ensures Cost(Middle(b, k) + x, t) <= Ones(x) + 1 + most
    decreases x
  {
    hide InvertLowestOne, Ones, Move, Multiple, Pow, Middle, GetSkipHeight, Cost;
    MiddleCost(b, k, t, most);
    if x > 0 {
      var m, y := Middle(b, k), InvertLowestOne(x);
      EightsMove(b, k, x, t);
      Next(m + x, t);
      OnesInvert(x);
      EightsCost(b, k, y, t, most);
    }
  }

  lemma EightsStay(x: nat)
    requires x > 0 && x % 8 == 0
    ensures InvertLowestOne(x) % 8 == 0 && InvertLowestOne(x) <= x - 8
  {
    hide InvertLowestOne;
    InvertEven(x / 8);
    InvertEven(x / 4);
    InvertEven(x / 2);
    InvertShrinks(x / 8);
  }

  lemma EightsMove(b: nat, k: nat, x: nat, t: nat)
    requires Lower(b, k, t) && x % 8 == 0 && 0 < x < Pow(2, k - 1)
    ensures
      var m, y := Middle(b, k), InvertLowestOne(x);
      t < m + x && Move(m + x, t) == m + y && y % 8 == 0 && y < x
  {
    hide InvertLowestOne, Ones, Pow, Multiple, Middle, GetSkipHeight, Move;
    var h := Middle(b, k) + x;
    EightsStay(x);
    Remainders(x);
    MiddleFacts(b, k);
    InvertUpper(b, k, x);
    PrevSkip(b, k, x);
    BothEven(Middle(b, k), x);
    SkipOfEven(h);
    EitherWay(h, t);
  }

  /** With only bit 2 of the low three: the parent's skip is better, unless no other bit is left. */
  lemma FoursCost(b: nat, k: nat, z: nat, t: nat, most: nat)
    requires Within(b, k, t, most) && z % 8 == 0 && z + 4 < Pow(2, k - 1)
    ensures Cost(Middle(b, k) + z + 4, t) <= (if z == 0 then 2 else (Ones(z) + 8) / 2) + most
  {
    hide InvertLowestOne, Ones, Move, Multiple, Pow, Middle, GetSkipHeight, Cost;
    var m := Middle(b, k);
    FoursMove(b, k, z, t);
    Next(m + z + 4, t);
    OnesOfTwo(z);
    if z > 0 {
      OddCost(b, k, z + 2, t, most);
    } else {
      MiddleCost(b, k, t, most);
      OnesPositive(0);
      OneBitLeft(b, k, 2, t);
    }
  }

  lemma TopPositive(k: nat)
    requires k >= 1
    ensures TopBound(k) >= 1
  {
  }

  lemma OnesOfTwo(z: nat)
    requires z % 8 == 0
    ensures Ones(z + 2) == 1 + Ones(z) && (z + 2) % 2 == 0 && (z + 4) % 8 == 4 && (z + 4) % 2 == 0
  {
    hide Ones, InvertLowestOne;
    More(z, 2);
    More(z, 4);
    Remainders(z + 2);
    Remainders(z + 4);
    InvertTwo(z + 2);
    OnesInvert(z + 2);
  }

  lemma FoursMove(b: nat, k: nat, z: nat, t: nat)
    requires Lower(b, k, t) && z % 8 == 0 && z + 4 < Pow(2, k - 1)
    ensures
      var m := Middle(b, k);
      && t < m + z + 4
      && (z > 0 ==> Move(m + z + 4, t) == m + z + 3)
      && (z == 0 ==> Move(m + 4, t) == m || (Move(m + 4, t) == m + 3 && t <= b + 1))
  {
    hide InvertLowestOne, Ones, Pow, Multiple, Middle;
    var m, x := Middle(b, k), z + 4;
    OnesOfTwo(z);
    MiddleFacts(b, k);
    InvertFour(x);
    InvertUpper(b, k, x);
    PrevSkip(b, k, x);
    BothEven(m, x);
    SkipOfEven(m + x);
    hide GetSkipHeight;
    if z > 0 {
      EightsStay(z);
      InvertUpper(b, k, z);
    }
  }

  /** With bit 1 set: the parent's skip clears two of the other bits, if there are two. */
  lemma TwosCost(b: nat, k: nat, z: nat, t: nat, most: nat)
    requires Within(b, k, t, most) && z % 4 == 0 && z + 2 < Pow(2, k - 1)
    ensures Cost(Middle(b, k) + z + 2, t) <= (if Ones(z) == 0 then 3 else (Ones(z) + 7) / 2) + most
  {
    hide InvertLowestOne, Ones, Move, Multiple, Pow, Middle, GetSkipHeight, Cost;
    var m := Middle(b, k);
    TwosMove(b, k, z, t);
    Next(m + z + 2, t);
    OddCost(b, k, z, t, most);
    if Ones(z) <= 1 && Move(m + z + 2, t) == m + z {
      if z % 8 == 0 {
        EightsCost(b, k, z, t, most);
      } else {
        LoneIs(z);
        FoursCost(b, k, 0, t, most);
      }
    }
  }

  lemma TwosMove(b: nat, k: nat, z: nat, t: nat)
    requires Lower(b, k, t) && z % 4 == 0 && z + 2 < Pow(2, k - 1)
    ensures
      var m := Middle(b, k);
      && t < m + z + 2 && z % 2 == 0 && (Ones(z) == 0 ==> z == 0)
      && (Move(m + z + 2, t) == m + z || Move(m + z + 2, t) == m + z + 1)
      && (Ones(z) >= 2 ==> Move(m + z + 2, t) == m + z + 1)
  {
    hide InvertLowestOne, Ones, Pow, Multiple, Middle;
    var m, x := Middle(b, k), z + 2;
    PlusTwo(z);
    OnesPositive(z);
    MiddleFacts(b, k);
    InvertTwo(x);
    InvertUpper(b, k, x);
    PrevSkip(b, k, x);
    BothEven(m, x);
    SkipOfEven(m + x);
    hide GetSkipHeight, Lower;
    ClearsTwo(b, k, z);
    if z > 0 {
      FoursStay(z);
    }
  }

  lemma FoursStay(z: nat)
    requires z > 0 && z % 4 == 0
    ensures InvertLowestOne(z) <= z - 4
  {
    hide InvertLowestOne;
    InvertEven(z / 4);
    InvertEven(z / 2);
    InvertShrinks(z / 4);
  }

  // ----- the bound -----

  /** How many steps from `x` above the middle it takes at most to come below it. */
  function Cross(x: nat): nat {
    if x == 0 then 1
    else if x % 2 == 1 then (Ones(x - 1) + 5) / 2
    else if x % 8 == 0 then Ones(x) + 1
    else if x % 8 == 4 then (if x == 4 then 2 else (Ones(x - 4) + 8) / 2)
    else if Ones(x - 2) == 0 then 3
    else (Ones(x - 2) + 7) / 2
  }

  lemma CrossingCost(b: nat, k: nat, x: nat, t: nat, most: nat)
    requires Within(b, k, t, most) && x < Pow(2, k - 1)
    ensures Cost(Middle(b, k) + x, t) <= Cross(x) + most
  {
    hide Ones, Move, Multiple, Pow, Cost, Middle;
    if x == 0 {
      MiddleCost(b, k, t, most);
    } else if x % 2 == 1 {
      DivUnique(x / 2, 0, 2, x - 1);
      OddCost(b, k, x - 1, t, most);
    } else if x % 8 == 0 {
      EightsCost(b, k, x, t, most);
    } else if x % 8 == 4 {
      Less(x, 4);
      FoursCost(b, k, x - 4, t, most);
    } else {
      Remainders(x);
      Less(x, 2);
      Remainders(x - 2);
      TwosCost(b, k, x - 2, t, most);
    }
  }

  lemma CrossOdd(x: nat, k: nat)
    requires x < Pow(2, k) && x % 2 == 1
    ensures Cross(x) <= (k + 5) / 2
  {
    hide Ones, Pow;
    DivUnique(x / 2, 0, 2, x - 1);
    OneRoom(k, x);
    OddOnes(x - 1, k);
  }

  lemma CrossFours(x: nat, k: nat)
    requires x < Pow(2, k) && x % 8 == 4
    ensures Cross(x) <= (k + 5) / 2
  {
    hide Ones, Pow;
    Remainders(x);
    Less(x, 4);
    PowRoom(k, x);
    EightsOnes(x - 4, k);
  }

  lemma CrossTwos(x: nat, k: nat)
    requires x < Pow(2, k) && (x % 8 == 2 || x % 8 == 6)
    ensures Cross(x) <= (k + 5) / 2
  {
    hide Ones, Pow;
    Remainders(x);
    Less(x, 2);
    Remainders(x - 2);
    PowRoom(k, x);
    FoursOnes(x - 2, k);
  }

  /** Half the bits, and a few; only a height whose three low bits are clear loses them one at a time. */
  lemma CrossBound(x: nat, k: nat)
    requires x < Pow(2, k)
    ensures x % 8 == 0 && x > 0 ==> Cross(x) == Ones(x) + 1
    ensures x % 8 != 0 || x == 0 ==> Cross(x) <= (k + 5) / 2
  {
    CrossIs(x);
    Remainders(x);
    hide Ones, Pow, Cross;
    if x % 2 == 1 {
      CrossOdd(x, k);
    } else if x % 8 == 4 {
      CrossFours(x, k);
    } else if x % 8 != 0 {
      CrossTwos(x, k);
    }
  }

  lemma CrossIs(x: nat)
    ensures x == 0 ==> Cross(x) == 1
    ensures x > 0 && x % 8 == 0 ==> Cross(x) == Ones(x) + 1
  {
    hide Ones;
    Remainders(x);
  }

  lemma OneRoom(k: nat, x: nat)
    requires 0 < x < Pow(2, k)
    ensures k >= 1
  {
  }

  /** The longest lookup within a block of 2^k heights. */
  function AnyBound(k: nat): nat {
    if k == 0 then 0
    else TopBound(k - 1) + if k - 3 >= k / 2 + 2 then k - 3 else k / 2 + 2
  }

  lemma CrossesWithin(b: nat, k: nat, h: nat, t: nat)
    requires Lower(b, k, t) && Middle(b, k) <= h < b + Pow(2, k)
    ensures Cost(h, t) <= AnyBound(k)
  {
    hide Ones, Move, Multiple, Pow, Cost, TopBound, Middle, Cross;
    MiddleIs(b, k);
    var x := h - Middle(b, k);
    LowerHalf(b, k, t);
    TopCost(b, k - 1, t);
    TopPositive(k - 1);
    CrossingCost(b, k, x, t, TopBound(k - 1));
    CrossBound(x, k - 1);
    if x % 8 == 0 && x > 0 {
      EightsOnes(x, k - 1);
    }
  }

  lemma LowerHalf(b: nat, k: nat, t: nat)
    requires Lower(b, k, t)
    ensures Multiple(b, k - 1) && b <= t < b + Pow(2, k - 1)
  {
    MultipleHalves(b, k);
  }

  lemma OddOnes(y: nat, k: nat)
    requires y % 2 == 0 && y < Pow(2, k) && k >= 1
    ensures Ones(y) <= k - 1
  {
    hide Ones, Pow;
    EvenIsMultiple(y);
    OnesBoundAbove(y, 1, k);
  }

  lemma EvenIsMultiple(y: nat)
    requires y % 2 == 0
    ensures Multiple(y, 1)
  {
  }

  lemma FoursOnes(z: nat, k: nat)
    requires z % 4 == 0 && z < Pow(2, k) && k >= 2
    ensures Ones(z) <= k - 2
  {
    hide Ones, Pow;
    EvenIsMultiple(z / 2);
    assert Multiple(z, 2);
    OnesBoundAbove(z, 2, k);
  }

  lemma EightsOnes(x: nat, k: nat)
    requires x % 8 == 0 && x < Pow(2, k)
    ensures k >= 3 ==> Ones(x) <= k - 3
    ensures k < 3 ==> x == 0
  {
    hide Ones, Pow;
    PowRoom(k, x);
    assert x == 8 * (x / 8);
    if k >= 3 {
      OnesOfEights(x / 8, k);
    }
  }

  lemma OnesOfEights(q: nat, k: nat)
    requires k >= 3 && 8 * q < Pow(2, k)
    ensures Ones(8 * q) <= k - 3
  {
    hide Ones, Pow;
    PowNext(2, k - 1);
    PowNext(2, k - 2);
    PowNext(2, k - 3);
    OnesDouble(q);
    OnesDouble(2 * q);
    OnesDouble(4 * q);
    OnesBound(q, k - 3);
  }

  lemma {:induction false} BlockCost(b: nat, k: nat, h: nat, t: nat)
    requires Multiple(b, k) && b <= t <= h < b + Pow(2, k)
    ensures Cost(h, t) <= AnyBound(k)
    decreases k
  {
    hide Ones, Move, Multiple, Cost, TopBound, AnyBound;
    if k == 0 {
      CostNothing(t);
    } else {
      MultipleHalves(b, k);
      MiddleIs(b, k);
      BoundGrows(k);
      var m := Middle(b, k);
      if h < m {
        BlockCost(b, k - 1, h, t);
      } else if t >= m {
        BlockCost(m, k - 1, h, t);
      } else if k == 1 {
        OneAbove(b, t);
        BoundOfOne();
      } else {
        CrossesWithin(b, k, h, t);
      }
    }
  }

  lemma BoundGrows(k: nat)
    requires k > 0
    ensures AnyBound(k - 1) <= AnyBound(k)
  {
  }

  lemma BoundOfOne()
    ensures AnyBound(1) == 2
  {
  }

  lemma {:induction false} TopBoundIs(k: nat)
    ensures 4 * TopBound(k) <= k * k + 7 * k
  {
    if k > 3 {
      TopBoundIs(k - 1);
      assert k * k == (k - 1) * (k - 1) + 2 * k - 1;
    }
  }

  // ----- going back a given number of blocks -----

  lemma IncrementsGrow(j: nat, k: nat)
    requires 3 <= j < k
    ensures TopBound(k) == TopBound(k - 1) + (k + 3) / 2
    ensures (j + 4) / 2 <= (k + 3) / 2
  {
  }

  /** Targets that are not near the bottom of the block are reached sooner from its top. */
  lemma {:induction false} TopCostAbove(b: nat, k: nat, t: nat, j: nat)
    requires Multiple(b, k) && 3 <= j < k && b + Pow(2, j) <= t < b + Pow(2, k)
    ensures Cost(b + Pow(2, k) - 1, t) + (j + 4) / 2 <= TopBound(k)
    decreases k
  {
    hide Ones, Move, Multiple, GetSkipHeight, Cost, TopBound;
    MultipleHalves(b, k);
    MiddleIs(b, k);
    IncrementsGrow(j, k);
    var m := Middle(b, k);
    if t >= m {
      TopCost(m, k - 1, t);
    } else {
      SmallerPower(j, k - 1, t - b);
      TopCostAbove(b, k - 1, t, j);
      TopOnes(k);
      var most := TopBound(k - 1) - (j + 4) / 2;
      MostPositive(j, k);
      OddCost(b, k, Pow(2, k - 1) - 2, t, most);
    }
  }

  lemma SmallerPower(j: nat, k: nat, x: nat)
    requires Pow(2, j) <= x < Pow(2, k)
    ensures j < k
  {
    if k <= j {
      PowMonotone(2, k, j);
    }
  }

  lemma {:induction false} MostPositive(j: nat, k: nat)
    requires 3 <= j < k - 1
    ensures TopBound(k - 1) >= (j + 4) / 2 + 1
  {
    if k - 1 == j + 1 {
      TopPositive(j);
    } else {
      MostPositive(j, k - 1);
    }
  }

  /** The last multiple of 2^k up to a height. */
  lemma {:induction false} Floor(h: nat, k: nat) returns (m: nat)
    ensures Multiple(m, k) && m <= h < m + Pow(2, k)
  {
    if k == 0 {
      m := h;
    } else {
      var n := Floor(h / 2, k - 1);
      m := 2 * n;
    }
  }

  /** Every positive multiple of 2^j is the middle of a block of more heights. */
  lemma {:induction false} IsMiddle(m: nat, j: nat) returns (b: nat, k: nat)
    requires Multiple(m, j) && m > 0
    ensures k > j && Multiple(b, k) && m == b + Pow(2, k - 1)
  {
    if m % 2 == 1 {
      b, k := m - 1, 1;
    } else {
      var c, i := IsMiddle(m / 2, if j == 0 then 0 else j - 1);
      b, k := 2 * c, i + 1;
    }
  }

  lemma {:induction false} MultipleBefore(m: nat, j: nat)
    requires Multiple(m, j) && m > 0
    ensures m >= Pow(2, j) && Multiple(m - Pow(2, j), j)
  {
    if j > 0 {
      MultipleBefore(m / 2, j - 1);
      assert (m - Pow(2, j)) / 2 == m / 2 - Pow(2, j - 1);
    }
  }

  lemma {:induction false} TopBit(x: nat) returns (j: nat)
    requires x > 0
    ensures Pow(2, j) <= x < Pow(2, j + 1)
  {
    if x == 1 {
      j := 0;
    } else {
      var i := TopBit(x / 2);
      j := i + 1;
    }
  }

  lemma {:induction false} OnesAdd(j: nat, x: nat)
    requires x < Pow(2, j)
    ensures Ones(Pow(2, j) + x) == 1 + Ones(x)
  {
    if j == 0 {
      assert Ones(1) == 1;
    } else {
      OnesAdd(j - 1, x / 2);
      assert (Pow(2, j) + x) / 2 == Pow(2, j - 1) + x / 2 && (Pow(2, j) + x) % 2 == x % 2;
      OnesHalf(x);
      OnesHalf(Pow(2, j) + x);
    }
  }

  lemma OnesHalf(n: nat)
    ensures Ones(n) == n % 2 + Ones(n / 2)
  {
  }

  lemma BoundsAre()
    ensures AnyBound(18) == 110 && TopBound(18) == 105 && TopBound(17) == 95 && TopBound(16) == 85
    ensures Pow(2, 16) == 0x1_0000 && Pow(2, 17) == 0x2_0000 && Pow(2, 18) == 0x4_0000 && Pow(2, 3) == 8
  {
    assert TopBound(9) == 31;
    assert TopBound(13) == 59;
    assert TopBound(16) == 85;
    PowersOfTwo();
  }

  /** From the height before a multiple of 2^18, by how far above it the lookup set out. */
  lemma NearCost(c: nat, x: nat, t: nat) returns (most: nat)
    requires Multiple(c, 18) && x < 0x4_0000 && c + x <= t < c + 0x4_0000
    ensures most >= 1 && Cost(c + 0x4_0000 - 1, t) <= most && Cross(x) + most <= 110
  {
    hide Cost, Multiple, TopBound, AnyBound, Pow, Cross, Ones;
    BoundsAre();
    if x >= 0x2_0000 {
      most := FarCost(c, x, t);
    } else if x < 8 {
      most := 105;
      TopCost(c, 18, t);
      CrossBound(x, 3);
    } else {
      var j := TopBit(x);
      BitRange(j, x);
      TopCostAbove(c, 18, t, j);
      most := 105 - (j + 4) / 2;
      CrossBound(x, j + 1);
      if x % 8 == 0 {
        EightsOnes(x, j + 1);
      }
    }
  }

  lemma BitRange(j: nat, x: nat)
    requires 8 <= x < 0x2_0000 && Pow(2, j) <= x < Pow(2, j + 1)
    ensures 3 <= j <= 16
  {
    hide Pow;
    BoundsAre();
    if j < 3 {
      PowMonotone(2, j + 1, 3);
    } else if j > 16 {
      PowMonotone(2, 17, j);
    }
  }

  lemma FarCost(c: nat, x: nat, t: nat) returns (most: nat)
    requires Multiple(c, 18) && 0x2_0000 <= x < 0x4_0000 && c + x <= t < c + 0x4_0000
    ensures most >= 1 && Cost(c + 0x4_0000 - 1, t) <= most && Cross(x) + most <= 110
  {
    hide Cost, Multiple, TopBound, AnyBound, Pow, Cross, Ones;
    BoundsAre();
    MultipleHalves(c, 18);
    MultipleHalves(c + 0x2_0000, 17);
    CrossBound(x, 18);
    if x % 8 == 0 {
      EightsOnes(x, 18);
    }
    if x >= 0x3_0000 {
      most := 85;
      TopCost(c + 0x3_0000, 16, t);
    } else {
      most := 95;
      TopCost(c + 0x2_0000, 17, t);
      if x % 8 == 0 {
        OnesAdd(17, x - 0x2_0000);
        DivUnique(x / 8 - 0x4000, 0, 8, x - 0x2_0000);
        EightsOnes(x - 0x2_0000, 16);
      }
    }
  }

  /** Going back from one aligned block of 2^18 heights into the one before it. */
  lemma StepsAcross(m: nat, h: nat, t: nat)
    requires Multiple(m, 18) && m <= h && t < m && h - t <= 0x4_0000
    ensures Cost(h, t) <= 110
  {
    hide Cost, Multiple, Pow, Cross, Ones;
    BoundsAre();
    var b, k := IsMiddle(m, 18);
    MiddleIs(b, k);
    MultipleBefore(m, 18);
    PowMonotone(2, 18, k - 1);
    var most := NearCost(m - 0x4_0000, h - m, t);
    CrossingCost(b, k, h - m, t, most);
  }

  /**
   Going back up to 2^18 blocks, from any height, takes at most 110 steps, as the code says; and from a height
   below 2^k no lookup takes more than about a quarter of k squared.
   */
  lemma LookupBound(h: nat, t: nat)
    requires t <= h
    ensures h - t <= 0x4_0000 ==> Cost(h, t) <= 110
    ensures forall k: nat | h < Pow(2, k) :: 4 * Cost(h, t) <= k * k + 9 * k + 8
  {
    hide Cost, Multiple, Pow, AnyBound;
    BoundsAre();
    if h - t <= 0x4_0000 {
      var m := Floor(h, 18);
      if t >= m {
        BlockCost(m, 18, h, t);
      } else {
        StepsAcross(m, h, t);
      }
    }
    forall k: nat | h < Pow(2, k) ensures 4 * Cost(h, t) <= k * k + 9 * k + 8 {
      ZeroIsMultiple(k);
      BlockCost(0, k, h, t);
      AnyBoundIs(k);
    }
  }

  lemma AnyBoundIs(k: nat)
    ensures 4 * AnyBound(k) <= k * k + 9 * k + 8
  {
    hide TopBound;
    if k > 0 {
      TopBoundIs(k - 1);
      assert (k - 1) * (k - 1) + 7 * (k - 1) == k * k + 5 * k - 6;
    }
  }
}
