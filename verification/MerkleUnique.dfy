/**
 What the mutation flag of `src/consensus/merkle.cpp` is for: with a collision-free node hash, lists of the same
 height that raise no flag have different roots; and the way around it that the flag detects, repeating the
 end of a list, does keep the root.
 */
module MerkleUnique {
  import opened Powers
  import opened Arithmetic
  import opened MerkleSpec
  import opened MerkleSize
  import opened MerkleRoot

  /** The leaves below a node. */
  ghost function Below(txids: seq<nat>, h: nat, pos: nat): seq<nat>
    requires pos < Width(|txids|, h)
  {
    NodeHasLeaf(|txids|, h, pos);
    txids[Lo(h, pos)..Hi(|txids|, h, pos)]
  }

  lemma BelowLeaf(hash: NodeHash, txids: seq<nat>, pos: nat)
    requires pos < Width(|txids|, 0)
    ensures pos < |txids| && Below(txids, 0, pos) == [txids[pos]] && CalcHash(hash, txids, 0, pos) == txids[pos]
  {
    LeafRange(|txids|, pos);
  }

  lemma BelowSplits(txids: seq<nat>, h: nat, pos: nat)
    requires h > 0 && pos < Width(|txids|, h)
    ensures 2 * pos < Width(|txids|, h - 1)
    ensures Below(txids, h, pos)
            == Below(txids, h - 1, 2 * pos)
               + if 2 * pos + 1 < Width(|txids|, h - 1) then Below(txids, h - 1, 2 * pos + 1) else []
  {
    hide Width, Lo, Hi;
    Halves(|txids|, h, pos);
    NodeHasLeaf(|txids|, h, pos);
    NodeHasLeaf(|txids|, h - 1, 2 * pos);
    if 2 * pos + 1 < Width(|txids|, h - 1) {
      NodeHasLeaf(|txids|, h - 1, 2 * pos + 1);
    }
  }

  /** A right sibling with as many leaves as its left one is complete, so equal siblings raise the flag. */
  lemma EqualSiblingsShow(hash: NodeHash, txids: seq<nat>, h: nat, pos: nat)
    requires h > 0 && pos < Width(|txids|, h) && 2 * pos + 1 < Width(|txids|, h - 1) && 2 * pos < Width(|txids|, h - 1)
    requires CalcHash(hash, txids, h - 1, 2 * pos) == CalcHash(hash, txids, h - 1, 2 * pos + 1)
    requires |Below(txids, h - 1, 2 * pos)| == |Below(txids, h - 1, 2 * pos + 1)|
    ensures Twins(hash, txids, |txids|)
  {
    assert Twin(hash, txids, h - 1, pos + 1);
    hide Width, Twin, CalcHash;
    Halves(|txids|, h, pos);
    HalvesArith(pos, Pow(2, h - 1));
    assert (pos + 1) * Pow(2, h) <= |txids|;
  }

  /** In lists that raise no flag, equal nodes of a height stand for equal leaves. */
  lemma {:induction false} EqualNodes(hash: NodeHash, a: seq<nat>, b: seq<nat>, h: nat, i: nat, j: nat)
    requires Injective(hash) && !Twins(hash, a, |a|) && !Twins(hash, b, |b|)
    requires i < Width(|a|, h) && j < Width(|b|, h) && CalcHash(hash, a, h, i) == CalcHash(hash, b, h, j)
    ensures Below(a, h, i) == Below(b, h, j)
    decreases h
  {
    hide Width, Twins, CalcHash, Below, Injective;
    if h == 0 {
      BelowLeaf(hash, a, i);
      BelowLeaf(hash, b, j);
    } else {
      BelowSplits(a, h, i);
      BelowSplits(b, h, j);
      CalcHashUnfolds(hash, a, h, i);
      CalcHashUnfolds(hash, b, h, j);
      SameChildren(hash, a, b, h, i, j);
      EqualNodes(hash, a, b, h - 1, 2 * i, 2 * j);
      var rightA, rightB := 2 * i + 1 < Width(|a|, h - 1), 2 * j + 1 < Width(|b|, h - 1);
      if rightA && rightB {
        EqualNodes(hash, a, b, h - 1, 2 * i + 1, 2 * j + 1);
      } else if rightA {
        EqualNodes(hash, a, a, h - 1, 2 * i, 2 * i + 1);
        EqualSiblingsShow(hash, a, h, i);
      } else if rightB {
        EqualNodes(hash, b, b, h - 1, 2 * j, 2 * j + 1);
        EqualSiblingsShow(hash, b, h, j);
      }
    }
  }

  /** The right child's hash, or the left one's where there is no right child. */
  function RightHash(hash: NodeHash, txids: seq<nat>, h: nat, pos: nat): nat
    requires 2 * pos < Width(|txids|, h)
  {
    if 2 * pos + 1 < Width(|txids|, h) then CalcHash(hash, txids, h, 2 * pos + 1) else CalcHash(hash, txids, h, 2 * pos)
  }

  lemma SameChildren(hash: NodeHash, a: seq<nat>, b: seq<nat>, h: nat, i: nat, j: nat)
    requires Injective(hash) && h > 0 && i < Width(|a|, h) && j < Width(|b|, h)
    requires 2 * i < Width(|a|, h - 1) && 2 * j < Width(|b|, h - 1)
    requires CalcHash(hash, a, h, i) == CalcHash(hash, b, h, j)
    ensures CalcHash(hash, a, h - 1, 2 * i) == CalcHash(hash, b, h - 1, 2 * j)
    ensures RightHash(hash, a, h - 1, i) == RightHash(hash, b, h - 1, j)
  {
    hide Width;
  }

  /**
   With a collision-free hash, two lists of the same height that raise no flag and have the same root are the
   same list.
   */
  lemma UnflaggedRootIsUnique(hash: NodeHash, a: seq<nat>, b: seq<nat>, height: nat)
    requires Injective(hash) && a != [] && b != [] && IsHeight(|a|, height) && IsHeight(|b|, height)
    requires !Twins(hash, a, |a|) && !Twins(hash, b, |b|)
    ensures 0 < Width(|a|, height) && 0 < Width(|b|, height)
    ensures CalcHash(hash, a, height, 0) == CalcHash(hash, b, height, 0) <==> a == b
  {
    hide Width, Twins, CalcHash, Injective, IsHeight, Lo, Hi;
    RootCovers(|a|, height);
    RootCovers(|b|, height);
    if CalcHash(hash, a, height, 0) == CalcHash(hash, b, height, 0) {
      EqualNodes(hash, a, b, height, 0, 0);
      assert Below(a, height, 0) == a && Below(b, height, 0) == b;
    }
  }

  // ----- repeating the end of a list -----

  lemma NextLevelJoin(hash: NodeHash, s: seq<nat>, t: seq<nat>)
    requires |s| % 2 == 0
    ensures NextLevel(hash, s + t) == NextLevel(hash, s) + NextLevel(hash, t)
  {
    var n := NextLevel(hash, s + t);
    var half := |s| / 2;
    forall i | 0 <= i < |n| ensures n[i] == (NextLevel(hash, s) + NextLevel(hash, t))[i] {
      if i >= half {
        assert (s + t)[2 * i] == t[2 * (i - half)];
        assert 2 * i + 1 < |s + t| ==> (s + t)[2 * i + 1] == t[2 * (i - half) + 1];
      }
    }
  }

  /** The last `m` entries of a level. */
  function Tail(s: seq<nat>, m: nat): seq<nat>
    requires m <= |s|
  {
    s[|s| - m..]
  }

  lemma NextLevelTail(hash: NodeHash, s: seq<nat>, m: nat)
    requires |s| % 2 == 0 && 2 * m <= |s|
    ensures |NextLevel(hash, s)| == |s| / 2 && NextLevel(hash, Tail(s, 2 * m)) == Tail(NextLevel(hash, s), m)
  {
    var cut := |s| - 2 * m;
    assert s == s[..cut] + s[cut..];
    NextLevelJoin(hash, s[..cut], s[cut..]);
  }

  /** A last entry that is repeated is paired with itself either way. */
  lemma NextLevelRepeats(hash: NodeHash, s: seq<nat>)
    requires |s| % 2 == 1
    ensures NextLevel(hash, s + Tail(s, 1)) == NextLevel(hash, s)
  {
    var t := s + Tail(s, 1);
    forall i | 0 <= i < |NextLevel(hash, s)| ensures NextLevel(hash, t)[i] == NextLevel(hash, s)[i] {
    }
  }

  lemma RepeatedStep(hash: NodeHash, s: seq<nat>, t: seq<nat>, p: nat)
    requires |s| % 2 == 0 && 2 * p <= |s| && t == s + Tail(s, 2 * p)
    ensures |NextLevel(hash, s)| == |s| / 2 && NextLevel(hash, t) == NextLevel(hash, s) + Tail(NextLevel(hash, s), p)
  {
    hide NextLevel;
    NextLevelTail(hash, s, p);
    NextLevelJoin(hash, s, Tail(s, 2 * p));
  }

  lemma {:induction false} LevelLength(hash: NodeHash, a: seq<nat>, k: nat, h: nat, w: nat)
    requires h <= k && |a| == w * Pow(2, k) && w > 0
    ensures |Level(hash, a, h)| == w * Pow(2, k - h) && Pow(2, k - h) <= |Level(hash, a, h)|
    ensures h < k ==> Pow(2, k - h) == 2 * Pow(2, k - h - 1) && |Level(hash, a, h)| % 2 == 0
    decreases h
  {
    hide *;
    if h > 0 {
      LevelLength(hash, a, k, h - 1, w);
      PowNext(2, k - h);
      DoubledLength(w, Pow(2, k - h));
      NextLength(hash, a, h);
    } else {
      LowestLevel(hash, a);
    }
    MulLe(1, w, Pow(2, k - h));
    if h < k {
      PowNext(2, k - h - 1);
      DoubledLength(w, Pow(2, k - h - 1));
    }
  }

  lemma LowestLevel(hash: NodeHash, a: seq<nat>)
    ensures Level(hash, a, 0) == a
  {
  }

  lemma NextLength(hash: NodeHash, a: seq<nat>, h: nat)
    requires h > 0
    ensures |Level(hash, a, h)| == (|Level(hash, a, h - 1)| + 1) / 2
  {
  }

  lemma DoubledLength(w: nat, p: nat)
    ensures w * (2 * p) == 2 * (w * p)
  {
  }

  lemma {:induction false} RepeatedLevels(hash: NodeHash, a: seq<nat>, k: nat, h: nat, w: nat)
    requires h <= k && |a| == w * Pow(2, k) && w > 0
    ensures Pow(2, k - h) <= |Level(hash, a, h)| && Pow(2, k) <= |a|
    ensures Level(hash, a + Tail(a, Pow(2, k)), h) == Level(hash, a, h) + Tail(Level(hash, a, h), Pow(2, k - h))
    decreases h
  {
    hide NextLevel, Pow, Tail;
    LevelLength(hash, a, k, h, w);
    MulLe(1, w, Pow(2, k));
    if h > 0 {
      LevelLength(hash, a, k, h - 1, w);
      RepeatedLevels(hash, a, k, h - 1, w);
      RepeatedStep(hash, Level(hash, a, h - 1), Level(hash, a + Tail(a, Pow(2, k)), h - 1), Pow(2, k - h));
    }
  }

  lemma {:induction false} SameAbove(hash: NodeHash, a: seq<nat>, b: seq<nat>, k: nat, h: nat)
    requires k <= h && Level(hash, a, k) == Level(hash, b, k)
    ensures Level(hash, a, h) == Level(hash, b, h)
    decreases h
  {
    hide NextLevel;
    if h > k {
      SameAbove(hash, a, b, k, h - 1);
    }
  }

  /** A list of an odd number of complete subtrees, more than one, with the last of them repeated. */
  lemma RepeatedMeets(hash: NodeHash, a: seq<nat>, k: nat, w: nat)
    requires |a| == w * Pow(2, k) && w % 2 == 1
    ensures Pow(2, k) <= |a|
    ensures var b := a + Tail(a, Pow(2, k));
            && Level(hash, b, k + 1) == Level(hash, a, k + 1)
            && |Level(hash, a, k)| == w && Level(hash, b, k) == Level(hash, a, k) + Tail(Level(hash, a, k), 1)
  {
    assert Pow(2, 0) == 1;
    hide NextLevel, Pow, Tail;
    RepeatedLevels(hash, a, k, k, w);
    LevelLength(hash, a, k, k, w);
    NextLevelRepeats(hash, Level(hash, a, k));
  }

  lemma RepeatedShows(hash: NodeHash, a: seq<nat>, k: nat, w: nat)
    requires |a| == w * Pow(2, k) && w % 2 == 1 && Pow(2, k) <= |a|
    ensures var b := a + Tail(a, Pow(2, k)); Twins(hash, b, |b|)
  {
    hide Level, Width, CalcHash, Pow, NextLevel;
    var b := a + Tail(a, Pow(2, k));
    RepeatedMeets(hash, a, k, w);
    LevelIsCalcHash(hash, b, k);
    var m := (w + 1) / 2;
    PowNext(2, k);
    assert Node(hash, b, k, w - 1) == Level(hash, b, k)[w - 1] == Level(hash, b, k)[w] == Node(hash, b, k, w);
    assert Twin(hash, b, k, m);
    HalvesArith(m, Pow(2, k));
    assert (w + 1) * Pow(2, k) == w * Pow(2, k) + Pow(2, k);
  }

  /**
   Repeating the last complete subtree of an odd number of them, at least three, keeps height and root,
   whatever the hash; and it raises the flag.
   */
  lemma RepeatedEndKeepsRoot(hash: NodeHash, a: seq<nat>, k: nat, w: nat, height: nat)
    requires |a| == w * Pow(2, k) && w % 2 == 1 && w > 1 && IsHeight(|a|, height)
    ensures Pow(2, k) <= |a|
    ensures var b := a + Tail(a, Pow(2, k));
            && IsHeight(|b|, height) && 0 < Width(|a|, height) && 0 < Width(|b|, height)
            && CalcHash(hash, a, height, 0) == CalcHash(hash, b, height, 0)
            && b != a && Twins(hash, b, |b|)
  {
    hide *;
    PowPositive(2, k);
    RepeatedMeets(hash, a, k, w);
    RepeatedShows(hash, a, k, w);
    var b := a + Tail(a, Pow(2, k));
    TailLength(a, Pow(2, k));
    LevelIsCalcHash(hash, a, k);
    HeightAbove(|a|, height, k);
    SameAbove(hash, a, b, k + 1, height);
    RootCovers(|a|, height);
    SameRoot(hash, a, b, height);
    SameHeight(|a|, |b|, height);
  }

  lemma TailLength(s: seq<nat>, m: nat)
    requires m <= |s|
    ensures |Tail(s, m)| == m
  {
  }

  lemma HeightAbove(n: nat, height: nat, k: nat)
    requires IsHeight(n, height) && Width(n, k) > 1
    ensures height > k
  {
    hide Width;
    if height <= k {
      WidthsFall(n, height, k);
    }
  }

  lemma SameRoot(hash: NodeHash, a: seq<nat>, b: seq<nat>, height: nat)
    requires Level(hash, a, height) == Level(hash, b, height) && 0 < Width(|a|, height)
    ensures Width(|a|, height) == Width(|b|, height) && CalcHash(hash, a, height, 0) == CalcHash(hash, b, height, 0)
  {
    hide Level, Width, CalcHash;
    LevelIsCalcHash(hash, a, height);
    LevelIsCalcHash(hash, b, height);
  }

  lemma SameHeight(m: nat, n: nat, height: nat)
    requires IsHeight(m, height) && m <= n && Width(m, height) == Width(n, height)
    ensures IsHeight(n, height)
  {
    hide Width;
    forall g | 0 <= g < height ensures Width(n, g) > 1 {
      WidthsGrow(m, n, g);
    }
  }

  lemma WidthsGrow(m: nat, n: nat, h: nat)
    requires m <= n
    ensures Width(m, h) <= Width(n, h)
  {
    hide Width;
    var w := Width(m, h);
    if w > 0 {
      WidthLeaf(m, h, w - 1);
      WidthLeaf(n, h, w - 1);
    }
  }
}
