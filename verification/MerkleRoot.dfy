/**
 The constant-space Merkle root of `src/consensus/merkle.cpp`: one pass over the leaves that keeps at most one
 finished subtree per level, then a sweep up the right edge.  It agrees with the recursive definition, and its
 mutation flag says exactly when two complete sibling subtrees hash alike.
 */
module MerkleRoot {
  import opened Powers
  import opened Arithmetic
  import opened MerkleSpec

  // ----- counting in binary -----

  predicate BitSet(count: nat, level: nat) {
    PowPositive(2, level);
    (count / Pow(2, level)) % 2 == 1
  }

  function Quotient(count: nat, level: nat): nat {
    PowPositive(2, level);
    count / Pow(2, level)
  }

  lemma QuotientOf(count: nat, level: nat, m: nat, r: nat)
    requires count == m * Pow(2, level) + r && r < Pow(2, level)
    ensures Quotient(count, level) == m
    ensures BitSet(count, level) <==> m % 2 == 1
  {
    PowPositive(2, level);
    DivUnique(m, r, Pow(2, level), count);
  }

  lemma QuotientBounds(count: nat, level: nat)
    ensures Quotient(count, level) * Pow(2, level) <= count < (Quotient(count, level) + 1) * Pow(2, level)
  {
    PowPositive(2, level);
  }

  /** `count` is `m` whole subtrees of a level. */
  predicate Whole(count: nat, level: nat, m: nat) {
    count == m * Pow(2, level)
  }

  lemma WholeQuotient(count: nat, level: nat, m: nat)
    requires Whole(count, level, m)
    ensures Quotient(count, level) == m && (BitSet(count, level) <==> m % 2 == 1)
  {
    PowPositive(2, level);
    QuotientOf(count, level, m, 0);
  }

  lemma WholeUp(count: nat, level: nat, m: nat)
    ensures Whole(count, level, 2 * m) <==> Whole(count, level + 1, m)
  {
    HalvesArith(m, Pow(2, level));
  }

  /** The count before a whole number of subtrees: one subtree fewer, all lower levels full. */
  lemma QuotientBefore(count: nat, level: nat, m: nat)
    requires Whole(count, level, m) && m > 0
    ensures count > 0 && Quotient(count - 1, level) == m - 1
    ensures BitSet(count - 1, level) <==> m % 2 == 0
  {
    PowPositive(2, level);
    var w := Pow(2, level);
    assert m * w == (m - 1) * w + w;
    MulPositive(m, w);
    QuotientOf(count - 1, level, m - 1, w - 1);
  }

  /** Above the lowest set bit nothing changes when one is subtracted. */
  lemma {:induction false} QuotientAbove(count: nat, level: nat, m: nat, above: nat)
    requires Whole(count, level, m) && m % 2 == 1 && level < above
    ensures count > 0 && Quotient(count - 1, above) == Quotient(count, above)
    ensures BitSet(count - 1, above) <==> BitSet(count, above)
  {
    QuotientBefore(count, level, m);
    WholeQuotient(count, level, m);
    if above == level + 1 {
      QuotientUp(count, level);
      QuotientUp(count - 1, level);
    } else {
      QuotientAbove(count, level, m, above - 1);
      QuotientUp(count, above - 1);
      QuotientUp(count - 1, above - 1);
    }
  }

  lemma QuotientUp(count: nat, level: nat)
    ensures Quotient(count, level + 1) == Quotient(count, level) / 2
    ensures BitSet(count, level + 1) <==> (Quotient(count, level) / 2) % 2 == 1
  {
    var q := Quotient(count, level);
    var w := Pow(2, level);
    PowPositive(2, level);
    QuotientBounds(count, level);
    var m, b := q / 2, q % 2;
    HalvesArith(m, w);
    assert q == 2 * m + b;
    assert (2 * m + b) * w == (2 * m) * w + b * w;
    assert (2 * m + b + 1) * w == (2 * m) * w + b * w + w;
    assert b == 0 || b == 1;
    QuotientOf(count, level + 1, m, count - m * (2 * w));
  }

  // ----- nodes -----

  /** The hash at a height and position, 0 where there is no node. */
  function Node(hash: NodeHash, txids: seq<nat>, h: nat, pos: int): nat {
    if 0 <= pos < Width(|txids|, h) then CalcHash(hash, txids, h, pos) else 0
  }

  lemma NodeUnfolds(hash: NodeHash, txids: seq<nat>, h: nat, pos: nat)
    requires pos < Width(|txids|, h + 1)
    ensures Node(hash, txids, h + 1, pos)
            == hash(Node(hash, txids, h, 2 * pos),
                    if 2 * pos + 1 < Width(|txids|, h) then Node(hash, txids, h, 2 * pos + 1)
                        else Node(hash, txids, h, 2 * pos))
  {
    hide Width, CalcHash;
    Halves(|txids|, h + 1, pos);
    CalcHashUnfolds(hash, txids, h + 1, pos);
  }

  /** Two finished siblings make the finished node above them. */
  lemma Combine(hash: NodeHash, txids: seq<nat>, count: nat, level: nat, m: nat)
    requires Whole(count, level, 2 * m) && m > 0 && count <= |txids|
    ensures hash(Node(hash, txids, level, 2 * m - 2), Node(hash, txids, level, 2 * m - 1))
        == Node(hash, txids, level + 1, m - 1)
  {
    hide Node, Width, CalcHash;
    var n := |txids|;
    var w := Pow(2, level);
    PowPositive(2, level);
    WidthLeaf(n, level, 2 * m - 1);
    WidthLeaf(n, level + 1, m - 1);
    HalvesArith(m, w);
    HalvesArith(m - 1, w);
    assert (2 * m) * w == (2 * m - 1) * w + w;
    NodeUnfolds(hash, txids, level, m - 1);
  }

  // ----- the first pass -----

  /** The finished subtrees: one for each bit of the count. */
  ghost predicate InnerOk(hash: NodeHash, txids: seq<nat>, inner: seq<nat>, count: nat) {
    forall l | 0 <= l < |inner| && BitSet(count, l) :: inner[l] == Node(hash, txids, l, Quotient(count, l) - 1)
  }

  lemma InnerAt(hash: NodeHash, txids: seq<nat>, inner: seq<nat>, count: nat, l: nat)
    requires InnerOk(hash, txids, inner, count) && l < |inner| && BitSet(count, l)
    ensures inner[l] == Node(hash, txids, l, Quotient(count, l) - 1)
  {
  }

  lemma InnerStep(hash: NodeHash, txids: seq<nat>, inner: seq<nat>, count: nat, level: nat, m: nat, h: nat)
    requires count > 0 && InnerOk(hash, txids, inner, count - 1) && level < |inner|
    requires Whole(count, level, m) && m % 2 == 1 && h == Node(hash, txids, level, m - 1)
    ensures InnerOk(hash, txids, inner[level := h], count)
  {
    hide Node, BitSet, Quotient, Whole;
    forall l | 0 <= l < |inner| && BitSet(count, l)
      ensures inner[level := h][l] == Node(hash, txids, l, Quotient(count, l) - 1)
    {
      if l == level {
        WholeQuotient(count, level, m);
      } else if l > level {
        QuotientAbove(count, level, m, l);
      } else {
        LowBitsClear(count, l, level, m);
      }
    }
  }

  lemma {:induction false} LowBitsClear(count: nat, l: nat, level: nat, m: nat)
    requires Whole(count, level, m) && l < level
    ensures !BitSet(count, l)
    decreases level
  {
    hide BitSet, Whole;
    WholeUp(count, level - 1, m);
    if l < level - 1 {
      LowBitsClear(count, l, level - 1, 2 * m);
    } else {
      WholeQuotient(count, level - 1, 2 * m);
    }
  }

  // ----- the mutation flag -----

  /** Two complete sibling subtrees of a level hash alike; `m` counts pairs from 1. */
  ghost predicate Twin(hash: NodeHash, txids: seq<nat>, level: nat, m: nat) {
    m >= 1 && Node(hash, txids, level, 2 * m - 2) == Node(hash, txids, level, 2 * m - 1)
  }

  /** Some such pair lies within the first leaves. */
  ghost predicate Twins(hash: NodeHash, txids: seq<nat>, upto: nat) {
    exists level: nat, m: nat :: Twin(hash, txids, level, m) && m * Pow(2, level + 1) <= upto
  }

  /** Some such pair below a level ends exactly at a leaf. */
  ghost predicate TwinsEndingAt(hash: NodeHash, txids: seq<nat>, count: nat, below: nat) {
    exists level: nat, m: nat :: level < below && Twin(hash, txids, level, m) && Whole(count, level + 1, m)
  }

  lemma TwinsNext(hash: NodeHash, txids: seq<nat>, count: nat, level: nat, m: nat)
    requires count > 0 && Whole(count, level, m) && m % 2 == 1
    ensures Twins(hash, txids, count) <==> Twins(hash, txids, count - 1) || TwinsEndingAt(hash, txids, count, level)
  {
    hide Twin;
    if Twins(hash, txids, count) && !Twins(hash, txids, count - 1) {
      var l: nat, k: nat :| Twin(hash, txids, l, k) && k * Pow(2, l + 1) <= count;
      assert Whole(count, l + 1, k);
      if l >= level {
        LowBitsClear(count, level, l + 1, k);
        WholeQuotient(count, level, m);
      }
    }
  }

  lemma TwinsLevel(hash: NodeHash, txids: seq<nat>, count: nat, level: nat, m: nat)
    requires Whole(count, level, 2 * m) && m > 0
    ensures TwinsEndingAt(hash, txids, count, level + 1)
            <==> TwinsEndingAt(hash, txids, count, level)
                 || Node(hash, txids, level, 2 * m - 2) == Node(hash, txids, level, 2 * m - 1)
  {
    hide Node, Whole;
    WholeUp(count, level, m);
    if Node(hash, txids, level, 2 * m - 2) == Node(hash, txids, level, 2 * m - 1) {
      assert Twin(hash, txids, level, m);
    }
    if TwinsEndingAt(hash, txids, count, level + 1) && !TwinsEndingAt(hash, txids, count, level) {
      var l: nat, k: nat :| l < level + 1 && Twin(hash, txids, l, k) && Whole(count, l + 1, k);
      WholeQuotient(count, level + 1, m);
      WholeQuotient(count, level + 1, k);
    }
  }

  lemma NoTwinsAtZero(hash: NodeHash, txids: seq<nat>)
    ensures !Twins(hash, txids, 0)
  {
    if Twins(hash, txids, 0) {
      var l: nat, k: nat :| Twin(hash, txids, l, k) && k * Pow(2, l + 1) <= 0;
      PowPositive(2, l + 1);
      MulPositive(k, Pow(2, l + 1));
    }
  }

  // ----- the sweep up the right edge -----

  lemma WidthWhole(n: nat, level: nat, m: nat)
    requires Whole(n, level, m)
    ensures Width(n, level) == m
  {
    hide Width;
    PowPositive(2, level);
    var w := Width(n, level);
    WidthLeaf(n, level, m);
    if w < m {
      WidthLeaf(n, level, w);
      MulLe(w + 1, m, Pow(2, level));
    }
  }

  lemma SweepAlone(hash: NodeHash, txids: seq<nat>, level: nat)
    requires Width(|txids|, level) > 1 && Width(|txids|, level) % 2 == 1
    ensures
      var q := Width(|txids|, level);
      && Width(|txids|, level + 1) == (q + 1) / 2
      && hash(Node(hash, txids, level, q - 1), Node(hash, txids, level, q - 1))
          == Node(hash, txids, level + 1, (q + 1) / 2 - 1)
  {
    hide Width, Node;
    WidthHalves(|txids|, level + 1);
    NodeUnfolds(hash, txids, level, (Width(|txids|, level) - 1) / 2);
  }

  lemma SweepPair(hash: NodeHash, txids: seq<nat>, inner: seq<nat>, count: nat, level: nat)
    requires InnerOk(hash, txids, inner, |txids|) && level < |inner|
    requires Width(|txids|, level) > 0 && Width(|txids|, level) % 2 == 0
    requires Whole(count, level, Width(|txids|, level)) && count > |txids|
    ensures
      var q := Width(|txids|, level);
      && Width(|txids|, level + 1) == q / 2
      && hash(inner[level], Node(hash, txids, level, q - 1)) == Node(hash, txids, level + 1, q / 2 - 1)
  {
    hide Width, Node, InnerOk, BitSet, Quotient;
    var n, q := |txids|, Width(|txids|, level);
    WidthHalves(n, level + 1);
    NodeUnfolds(hash, txids, level, q / 2 - 1);
    WidthLeaf(n, level, q - 1);
    assert q * Pow(2, level) == (q - 1) * Pow(2, level) + Pow(2, level);
    QuotientOf(n, level, q - 1, n - (q - 1) * Pow(2, level));
    InnerAt(hash, txids, inner, n, level);
  }

  // ----- 32-bit counting -----

  lemma LevelBound(level: nat)
    requires Pow(2, level) <= 0x8000_0000
    ensures level <= 31
  {
    if level >= 32 {
      PowMonotone(2, 32, level);
      PowersOfTwo();
    }
  }

  lemma WholeBound(count: nat, level: nat, m: nat)
    requires Whole(count, level, m) && m > 0 && count <= 0x8000_0000
    ensures level <= 31
  {
    MulLe(1, m, Pow(2, level));
    LevelBound(level);
  }

  lemma WideLevel(n: nat, level: nat)
    requires Width(n, level) > 1 && n <= 0x8000_0000
    ensures level < 31 && Pow(2, level) < n
  {
    hide Width, Pow;
    WidthLeaf(n, level, 1);
    if level >= 31 {
      PowMonotone(2, 31, level);
      PowersOfTwo();
    }
  }

  /** The count stays a 32-bit number while the sweep completes the right edge. */
  lemma SweepCount(n: nat, level: nat, count: nat)
    requires n <= 0x8000_0000 && Width(n, level) > 1 && Width(n, level) % 2 == 1 && Whole(count, level, Width(n, level))
    ensures Whole(count + Pow(2, level), level + 1, (Width(n, level) + 1) / 2)
    ensures n < count + Pow(2, level) < 0x1_0000_0000
  {
    hide Width;
    var q := Width(n, level);
    PowPositive(2, level);
    WidthLeaf(n, level, q);
    WidthLeaf(n, level, q - 1);
    WidthLeaf(n, level, 2);
    SweepArith(n, q, Pow(2, level));
    HalvesArith((q + 1) / 2, Pow(2, level));
  }

  lemma SweepArith(n: nat, q: nat, w: nat)
    requires q > 0 && (q - 1) * w < n <= q * w && 2 * w < n <= 0x8000_0000 && w > 0
    ensures q * w + w == (q + 1) * w && n < q * w + w < 0x1_0000_0000
  {
    assert q * w == (q - 1) * w + w;
  }

  /** The root so far is the root of the whole tree once one node is left. */
  lemma SweepDone(hash: NodeHash, txids: seq<nat>, level: nat, root: nat)
    requires Width(|txids|, level) == 1 && root == Node(hash, txids, level, 0)
    requires level > 0 ==> Width(|txids|, level - 1) > 1
    ensures forall h | IsHeight(|txids|, h) :: 0 < Width(|txids|, h) && root == CalcHash(hash, txids, h, 0)
  {
    hide Width, CalcHash;
    if level > 0 {
      WidthsAbove(|txids|, level - 1);
    }
    assert IsHeight(|txids|, level);
    forall h | IsHeight(|txids|, h) ensures h == level {
      HeightIsUnique(|txids|, h, level);
    }
  }

  method AddLeaf(hash: NodeHash, leaves: seq<nat>, inner: array<nat>, count: nat, mutated: bool) returns (now: bool)
    requires inner.Length == 32 && count < |leaves| <= 0x8000_0000
    requires InnerOk(hash, leaves, inner[..], count) && mutated == Twins(hash, leaves, count)
    modifies inner
    ensures InnerOk(hash, leaves, inner[..], count + 1) && now == Twins(hash, leaves, count + 1)
  {
    hide Node, BitSet, Quotient, Whole, InnerOk, Twins, TwinsEndingAt;
    now := mutated;
    ghost var table := inner[..];
    var h: nat, level: nat := leaves[count], 0;
    var total: nat := count + 1;
    ghost var m: nat := total;
    FirstLevel(hash, leaves, count);
    while !BitSet(total, level)
      invariant Whole(total, level, m) && m > 0 && inner[..] == table
      invariant h == Node(hash, leaves, level, m - 1)
      invariant now <==> Twins(hash, leaves, count) || TwinsEndingAt(hash, leaves, total, level)
      decreases m
    {
      WholeQuotient(total, level, m);
      m := m / 2;
      WholeUp(total, level, m);
      WholeBound(total, level + 1, m);
      QuotientBefore(total, level, 2 * m);
      InnerAt(hash, leaves, table, count, level);
      TwinsLevel(hash, leaves, total, level, m);
      Combine(hash, leaves, total, level, m);
      now := now || inner[level] == h;
      h := hash(inner[level], h);
      level := level + 1;
    }
    WholeQuotient(total, level, m);
    WholeBound(total, level, m);
    TwinsNext(hash, leaves, total, level, m);
    InnerStep(hash, leaves, table, total, level, m, h);
    inner[level] := h;
    assert inner[..] == table[level := h];
  }

  lemma FirstLevel(hash: NodeHash, txids: seq<nat>, count: nat)
    requires count < |txids|
    ensures Whole(count + 1, 0, count + 1) && txids[count] == Node(hash, txids, 0, count)
    ensures !TwinsEndingAt(hash, txids, count + 1, 0)
  {
    WidthZero(|txids|);
  }

  method LowestBit(count: nat) returns (level: nat, ghost m: nat)
    requires 0 < count <= 0x8000_0000
    ensures Whole(count, level, m) && m % 2 == 1 && BitSet(count, level) && level <= 31
    ensures level > 0 ==> Whole(count, level - 1, 2 * m)
  {
    hide BitSet, Whole;
    level, m := 0, count;
    assert Whole(count, 0, count) by { WholeZero(count); }
    while !BitSet(count, level)
      invariant Whole(count, level, m) && m > 0
      invariant level > 0 ==> Whole(count, level - 1, 2 * m)
      decreases m
    {
      WholeQuotient(count, level, m);
      m := m / 2;
      WholeUp(count, level, m);
      level := level + 1;
    }
    WholeQuotient(count, level, m);
    WholeBound(count, level, m);
  }

  lemma WholeZero(count: nat)
    ensures Whole(count, 0, count)
  {
  }

  method SweepPairs(hash: NodeHash, leaves: seq<nat>, inner: array<nat>, count: nat, start: nat, first: nat)
          returns (level: nat, h: nat)
    requires inner.Length == 32 && |leaves| <= 0x8000_0000 && InnerOk(hash, leaves, inner[..], |leaves|)
    requires Width(|leaves|, start) > 0 && Whole(count, start, Width(|leaves|, start)) && |leaves| < count
    requires first == Node(hash, leaves, start, Width(|leaves|, start) - 1)
    requires start > 0 && Width(|leaves|, start - 1) > 1
    ensures level >= start && Width(|leaves|, level - 1) > 1
    ensures 0 < Width(|leaves|, level) <= Width(|leaves|, start) && Width(|leaves|, level) % 2 == 1
    ensures Whole(count, level, Width(|leaves|, level)) && h == Node(hash, leaves, level, Width(|leaves|, level) - 1)
  {
    hide Node, BitSet, Quotient, Whole, InnerOk, Width;
    level, h := start, first;
    WholeQuotient(count, level, Width(|leaves|, level));
    while !BitSet(count, level)
      invariant level >= start && Width(|leaves|, level - 1) > 1
      invariant 0 < Width(|leaves|, level) <= Width(|leaves|, start)
      invariant Whole(count, level, Width(|leaves|, level))
          && h == Node(hash, leaves, level, Width(|leaves|, level) - 1)
      decreases Width(|leaves|, level)
    {
      WholeQuotient(count, level, Width(|leaves|, level));
      WideLevel(|leaves|, level);
      SweepPair(hash, leaves, inner[..], count, level);
      WholeUp(count, level, Width(|leaves|, level) / 2);
      h := hash(inner[level], h);
      level := level + 1;
    }
    WholeQuotient(count, level, Width(|leaves|, level));
  }

  /**
   The root of a list of leaves, 0 for the empty list, together with the flag that is raised exactly when two
   complete siblings are equal.  The 32-bit count cannot wrap for up to 2^31 leaves.
   */
  method ComputeMerkleRoot(hash: NodeHash, leaves: seq<nat>) returns (root: nat, mutated: bool)
    requires |leaves| <= 0x8000_0000
    ensures leaves == [] ==> root == 0
    ensures leaves != [] ==>
              forall h | IsHeight(|leaves|, h) :: 0 < Width(|leaves|, h) && root == CalcHash(hash, leaves, h, 0)
    ensures mutated <==> Twins(hash, leaves, |leaves|)
  {
    hide Node, BitSet, Quotient, Whole, InnerOk, Width, IsHeight, CalcHash, Twins;
    root, mutated := 0, false;
    NoTwinsAtZero(hash, leaves);
    if |leaves| == 0 {
      return;
    }
    var inner := new nat[32](_ => 0);
    InnerEmpty(hash, leaves, inner[..]);
    var count: nat := 0;
    while count < |leaves|
      invariant count <= |leaves|
      invariant InnerOk(hash, leaves, inner[..], count) && mutated == Twins(hash, leaves, count)
    {
      mutated := AddLeaf(hash, leaves, inner, count, mutated);
      count := count + 1;
    }
    var level, m := LowestBit(count);
    WidthWhole(count, level, m);
    WholeQuotient(count, level, m);
    InnerAt(hash, leaves, inner[..], count, level);
    if level > 0 {
      WidthWhole(count, level - 1, 2 * m);
    }
    root := inner[level];
    while count != Pow(2, level)
      invariant InnerOk(hash, leaves, inner[..], |leaves|)
      invariant 0 < Width(|leaves|, level) && Width(|leaves|, level) % 2 == 1
      invariant level > 0 ==> Width(|leaves|, level - 1) > 1
      invariant Whole(count, level, Width(|leaves|, level)) && |leaves| <= count < 0x1_0000_0000
      invariant root == Node(hash, leaves, level, Width(|leaves|, level) - 1)
      decreases Width(|leaves|, level)
    {
      WholeOne(count, level, Width(|leaves|, level));
      SweepAlone(hash, leaves, level);
      SweepCount(|leaves|, level, count);
      root := hash(root, root);
      count := count + Pow(2, level);
      level := level + 1;
      level, root := SweepPairs(hash, leaves, inner, count, level, root);
    }
    WholeOne(count, level, Width(|leaves|, level));
    SweepDone(hash, leaves, level, root);
  }

  lemma WholeOne(count: nat, level: nat, m: nat)
    requires Whole(count, level, m)
    ensures count == Pow(2, level) <==> m == 1
  {
    PowPositive(2, level);
    if m == 0 {
    } else if m > 1 {
      MulLe(2, m, Pow(2, level));
    }
  }

  lemma InnerEmpty(hash: NodeHash, txids: seq<nat>, inner: seq<nat>)
    ensures InnerOk(hash, txids, inner, 0)
  {
    forall l | 0 <= l < |inner| ensures !BitSet(0, l) {
      PowPositive(2, l);
      QuotientOf(0, l, 0, 0);
    }
  }
}
