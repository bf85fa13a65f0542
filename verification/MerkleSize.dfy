/**
 How large a partial Merkle tree is: what the comment on `CPartialMerkleTree` in `src/merkleblock.h` says of
 its flag bits and of its serialized size, and exactly when each holds.
 */
module MerkleSize {
  import opened Powers
  import opened MerkleSpec

  // ----- flag bits -----

  /** The last node at a height. */
  function Last(n: nat, h: nat): nat {
    if Width(n, h) == 0 then 0 else Width(n, h) - 1
  }

  /** The heights up to `h` whose last node is the parent of a match and has one child only. */
  function OddEdges(l: Leaves, h: nat): nat {
    if h == 0 then 0
    else
      OddEdges(l, h - 1) + if Width(l.N(), h - 1) % 2 == 1 && ParentOfMatch(l, h, Last(l.N(), h)) then 1 else 0
  }

  lemma WidthPositive(n: nat, h: nat)
    requires n > 0
    ensures Width(n, h) > 0
  {
    WidthLeaf(n, h, 0);
  }

  /** The last node's last child is the last node one level down, and covers no more leaves. */
  lemma LastChild(n: nat, h: nat)
    requires n > 0 && h > 0
    ensures Lo(h, Last(n, h)) <= Lo(h - 1, Last(n, h - 1)) && Hi(n, h - 1, Last(n, h - 1)) == Hi(n, h, Last(n, h))
  {
    hide Width, Pow, Lo, Hi;
    WidthPositive(n, h);
    WidthHalves(n, h);
    Halves(n, h, Last(n, h));
  }

  lemma MatchWithin(l: Leaves, lo: nat, from: nat, hi: int)
    requires lo <= from && l.AnyMatch(from, hi)
    ensures l.AnyMatch(lo, hi)
  {
    var p :| 0 <= p < |l.vMatch| && from <= p < hi && l.vMatch[p];
    assert lo <= p < hi;
  }

  lemma {:induction false} NoEdgeMatch(l: Leaves, h: nat)
    requires l.Ok() && !ParentOfMatch(l, h, Last(l.N(), h))
    ensures OddEdges(l, h) == 0
  {
    hide Width, Pow, Lo, Hi, Leaves.AnyMatch, Last;
    if h > 0 {
      LastChild(l.N(), h);
      if ParentOfMatch(l, h - 1, Last(l.N(), h - 1)) {
        MatchWithin(l, Lo(h, Last(l.N(), h)), Lo(h - 1, Last(l.N(), h - 1)), Hi(l.N(), h, Last(l.N(), h)));
      }
      NoEdgeMatch(l, h - 1);
    }
  }

  /** A node with two children, or one: which of them are last. */
  lemma LastOfChildren(n: nat, h: nat, pos: nat)
    requires h > 0 && pos < Width(n, h)
    ensures 2 * pos < Width(n, h - 1)
    ensures 2 * pos + 1 < Width(n, h - 1) ==>
              && 2 * pos != Last(n, h - 1)
              && (2 * pos + 1 == Last(n, h - 1) <==> pos == Last(n, h))
              && (pos == Last(n, h) ==> Width(n, h - 1) % 2 == 0)
    ensures 2 * pos + 1 >= Width(n, h - 1) ==>
              2 * pos == Last(n, h - 1) && pos == Last(n, h) && Width(n, h - 1) % 2 == 1
  {
    hide Width;
    WidthHalves(n, h);
    Halves(n, h, pos);
  }

  /** The single children met in a subtree. */
  function SinglesAt(l: Leaves, h: nat, pos: nat): nat {
    if pos == Last(l.N(), h) then OddEdges(l, h) else 0
  }

  lemma {:induction false} BitsCountAt(hash: NodeHash, l: Leaves, h: nat, pos: nat)
    requires l.Ok() && pos < Width(l.N(), h)
    ensures |Bits(l, h, pos)| == 2 * |Hashes(hash, l, h, pos)| - 1 + SinglesAt(l, h, pos)
    decreases h
  {
    hide Width, Pow, Last, CalcHash, Bits, Hashes, ParentOfMatch;
    if h == 0 || !ParentOfMatch(l, h, pos) {
      OneStored(hash, l, h, pos);
      if h > 0 && pos == Last(l.N(), h) {
        NoEdgeMatch(l, h);
      }
    } else {
      LastOfChildren(l.N(), h, pos);
      BuildUnfolds(hash, l, h, pos);
      BitsCountAt(hash, l, h - 1, 2 * pos);
      if 2 * pos + 1 < Width(l.N(), h - 1) {
        BitsCountAt(hash, l, h - 1, 2 * pos + 1);
      }
    }
  }

  lemma RootIsLast(n: nat, height: nat)
    requires n > 0 && IsHeight(n, height)
    ensures 0 < Width(n, height) && Last(n, height) == 0
  {
    WidthPositive(n, height);
  }

  /**
   The number of flag bits, and so exactly when there are at most `2 * N - 1` of them: when no level of odd
   width has its last node below the parent of a match.
   */
  lemma BitsBoundIff(hash: NodeHash, l: Leaves, height: nat)
    requires l.Ok() && IsHeight(l.N(), height)
    ensures 0 < Width(l.N(), height)
    ensures |Bits(l, height, 0)| == 2 * |Hashes(hash, l, height, 0)| - 1 + OddEdges(l, height)
    ensures |Bits(l, height, 0)| <= 2 * |Hashes(hash, l, height, 0)| - 1
            <==> forall h | 1 <= h <= height :: Width(l.N(), h - 1) % 2 == 0 || !ParentOfMatch(l, h, Last(l.N(), h))
  {
    RootIsLast(l.N(), height);
    hide Width, Last, Bits, Hashes, ParentOfMatch, IsHeight;
    BitsCountAt(hash, l, height, 0);
    OddEdgesZeroIff(l, height);
  }

  lemma {:induction false} OddEdgesZeroIff(l: Leaves, height: nat)
    ensures OddEdges(l, height) == 0
            <==> forall h | 1 <= h <= height :: Width(l.N(), h - 1) % 2 == 0 || !ParentOfMatch(l, h, Last(l.N(), h))
  {
    hide Width, Last, ParentOfMatch;
    if height > 0 {
      OddEdgesZeroIff(l, height - 1);
    }
  }

  // ----- serialized size -----

  /** The length of a count in front of a vector. */
  function CompactSize(n: nat): nat {
    if n < 253 then 1 else if n <= 0xffff then 3 else if n <= 0xffff_ffff then 5 else 9
  }

  function FlagBytes(bits: nat): nat { (bits + 7) / 8 }

  /** The number of transactions, the hashes and the flag bytes, each vector after its count. */
  function SerializedSize(hashes: nat, bits: nat): nat {
    4 + CompactSize(hashes) + 32 * hashes + CompactSize(FlagBytes(bits)) + FlagBytes(bits)
  }

  /** `10 + ceil(32.25 * N)`. */
  function PromisedSize(hashes: nat): nat { 10 + (129 * hashes + 3) / 4 }

  lemma SizeArith(n: nat, singles: nat, bits: nat)
    requires bits == 2 * n - 1 + singles
    ensures SerializedSize(n, bits) <= PromisedSize(n)
            <==> singles <= 1 + 2 * ((4 - n % 4) % 4) + 8 * (6 - CompactSize(n) - CompactSize(FlagBytes(bits)))
  {
    hide CompactSize;
    var k, r := n / 4, n % 4;
    Quarters(n);
    Eighths(k, 2 * r + 6 + singles);
    var bytes := (2 * r + 6 + singles) / 8;
    var room := 6 - CompactSize(n) - CompactSize(FlagBytes(bits));
    assert SerializedSize(n, bits) <= PromisedSize(n) <==> bytes <= room + if r == 0 then 0 else 1;
    EighthAtMost(2 * r + 6 + singles, room + if r == 0 then 0 else 1);
  }

  lemma Quarters(n: nat)
    ensures n == 4 * (n / 4) + n % 4
    ensures (129 * n + 3) / 4 == 32 * n + n / 4 + if n % 4 == 0 then 0 else 1
    ensures (4 - n % 4) % 4 == if n % 4 == 0 then 0 else 4 - n % 4
  {
  }

  lemma Eighths(k: nat, x: nat)
    ensures (8 * k + x) / 8 == k + x / 8
  {
  }

  lemma EighthAtMost(x: nat, m: int)
    ensures x / 8 <= m <==> x <= 8 * m + 7
  {
  }

  /** How many hashes the mask makes a subtree store: its visited nodes that are leaves or hold no match. */
  function Stored(l: Leaves, h: nat, pos: nat): nat
    requires pos < Width(l.N(), h)
    decreases h
  {
    if h == 0 || !ParentOfMatch(l, h, pos) then 1
    else
      Halves(l.N(), h, pos);
      Stored(l, h - 1, 2 * pos) + if 2 * pos + 1 < Width(l.N(), h - 1) then Stored(l, h - 1, 2 * pos + 1) else 0
  }

  lemma {:induction false} StoredIsHashes(hash: NodeHash, l: Leaves, h: nat, pos: nat)
    requires l.Ok() && pos < Width(l.N(), h)
    ensures |Hashes(hash, l, h, pos)| == Stored(l, h, pos)
    decreases h
  {
    hide Width, ParentOfMatch, CalcHash, Hashes, Bits;
    if h == 0 || !ParentOfMatch(l, h, pos) {
      OneStored(hash, l, h, pos);
    } else {
      Halves(l.N(), h, pos);
      BuildUnfolds(hash, l, h, pos);
      StoredIsHashes(hash, l, h - 1, 2 * pos);
      if 2 * pos + 1 < Width(l.N(), h - 1) {
        StoredIsHashes(hash, l, h - 1, 2 * pos + 1);
      }
    }
  }

  /** The room that `n` hashes and `edges` single children leave, by how long their two counts are. */
  function Room(n: nat, edges: nat): int
    requires n > 0
  {
    1 + 2 * ((4 - n % 4) % 4) + 8 * (6 - CompactSize(n) - CompactSize(FlagBytes(2 * n - 1 + edges)))
  }

  lemma {:induction false} StoredPositive(l: Leaves, h: nat, pos: nat)
    requires pos < Width(l.N(), h)
    ensures Stored(l, h, pos) > 0
    decreases h
  {
    hide Width, ParentOfMatch;
    if h > 0 && ParentOfMatch(l, h, pos) {
      Halves(l.N(), h, pos);
      StoredPositive(l, h - 1, 2 * pos);
    }
  }

  /**
   Exactly when the size is as promised, in terms of the leaves and the mask alone: the single children do
   not outnumber the room.
   */
  lemma SizeAsPromisedIff(hash: NodeHash, l: Leaves, height: nat)
    requires l.Ok() && IsHeight(l.N(), height)
    ensures 0 < Width(l.N(), height) && Stored(l, height, 0) > 0
    ensures var n, bits := |Hashes(hash, l, height, 0)|, |Bits(l, height, 0)|;
            SerializedSize(n, bits) <= PromisedSize(n)
            <==> OddEdges(l, height) <= Room(Stored(l, height, 0), OddEdges(l, height))
  {
    hide Width, Bits, Hashes, IsHeight, OddEdges, ParentOfMatch, Last, SerializedSize, PromisedSize, CompactSize;
    hide Stored;
    BitsBoundIff(hash, l, height);
    StoredIsHashes(hash, l, height, 0);
    StoredPositive(l, height, 0);
    SizeArith(|Hashes(hash, l, height, 0)|, OddEdges(l, height), |Bits(l, height, 0)|);
  }

  lemma {:induction false} OddEdgesBound(l: Leaves, h: nat)
    ensures OddEdges(l, h) <= h
  {
    if h > 0 {
      OddEdgesBound(l, h - 1);
    }
  }

  lemma HeightBound(n: nat, height: nat)
    requires n <= 65536 && IsHeight(n, height)
    ensures height <= 16
  {
    assert Pow(2, 16) == 65536 by {
      assert Pow(2, 4) == 16 && Pow(2, 8) == 256;
      PowAdd(2, 8, 8);
    }
    WidthLeaf(n, 16, 1);
  }

  /** A tree with fewer than 253 hashes, or as few flag bytes, over as many transactions as a block holds. */
  lemma SmallIsAsPromised(hash: NodeHash, l: Leaves, height: nat)
    requires l.Ok() && l.N() <= MAX_BLOCK_SIZE_CURRENT / 60 && IsHeight(l.N(), height)
    ensures 0 < Width(l.N(), height)
    ensures var n, bits := |Hashes(hash, l, height, 0)|, |Bits(l, height, 0)|;
            n < 253 || FlagBytes(bits) < 253 ==> SerializedSize(n, bits) <= PromisedSize(n)
  {
    HeightBound(l.N(), height);
    RootCovers(l.N(), height);
    hide Width, Bits, Hashes, IsHeight, OddEdges, ParentOfMatch, Last, SerializedSize, PromisedSize, Matched, Lo, Hi;
    SizeAsPromisedIff(hash, l, height);
    BitsBoundIff(hash, l, height);
    OddEdgesBound(l, height);
    StoredCounts(hash, l, height, 0);
  }

  // ----- two trees that are larger than the comment says -----

  /** Five transactions, the last of them selected. */
  const FiveLeaves := Leaves([1, 2, 3, 4, 5], [false, false, false, false, true])

  lemma FiveWidths()
    ensures Width(5, 0) == 5 && Width(5, 1) == 3 && Width(5, 2) == 2 && Width(5, 3) == 1 && IsHeight(5, 3)
  {
    WidthZero(5);
    hide Width;
    WidthHalves(5, 1);
    WidthHalves(5, 2);
    WidthHalves(5, 3);
  }

  lemma FiveParents(h: nat, pos: nat)
    requires pos < Width(5, h)
    ensures ParentOfMatch(FiveLeaves, h, pos) <==> pos == Last(5, h)
  {
    WidthLeaf(5, h, pos);
    WidthLeaf(5, h, pos + 1);
    hide Width, Pow;
    var l := FiveLeaves;
    assert l.AnyMatch(Lo(h, pos), Hi(5, h, pos)) <==> Lo(h, pos) <= 4 < Hi(5, h, pos) by {
      assert l.vMatch[4];
    }
  }

  lemma FiveHashes(hash: NodeHash)
    ensures 0 < Width(5, 3) && |Hashes(hash, FiveLeaves, 3, 0)| == 2
  {
    FiveWidths();
    hide Width, CalcHash, ParentOfMatch, Hashes, Bits;
    var l := FiveLeaves;
    FiveParents(3, 0);
    FiveParents(2, 0);
    FiveParents(2, 1);
    FiveParents(1, 2);
    OneStored(hash, l, 2, 0);
    OneStored(hash, l, 0, 4);
    BuildUnfolds(hash, l, 1, 2);
    BuildUnfolds(hash, l, 2, 1);
    BuildUnfolds(hash, l, 3, 0);
  }

  /** Two hashes but five flag bits, over the three that `2 * N - 1` allows. */
  lemma FiveLeavesOverrun(hash: NodeHash)
    ensures FiveLeaves.Ok() && IsHeight(5, 3) && 0 < Width(5, 3)
    ensures |Hashes(hash, FiveLeaves, 3, 0)| == 2 && |Bits(FiveLeaves, 3, 0)| == 5
  {
    FiveWidths();
    FiveHashes(hash);
    hide Width, ParentOfMatch, Hashes, Bits, IsHeight;
    BitsBoundIff(hash, FiveLeaves, 3);
    FiveParents(1, 2);
    FiveParents(2, 1);
    assert OddEdges(FiveLeaves, 1) == 1;
    assert OddEdges(FiveLeaves, 2) == 2;
  }

  ghost predicate AllSelected(l: Leaves) {
    l.Ok() && forall i | 0 <= i < |l.vMatch| :: l.vMatch[i]
  }

  lemma AllParents(l: Leaves, h: nat, pos: nat)
    requires AllSelected(l) && pos < Width(l.N(), h)
    ensures ParentOfMatch(l, h, pos)
  {
    NodeHasLeaf(l.N(), h, pos);
    hide Width, Pow, Lo, Hi;
    assert l.vMatch[Lo(h, pos)];
  }

  /** With everything selected each transaction is stored. */
  lemma {:induction false} AllHashes(hash: NodeHash, l: Leaves, h: nat, pos: nat)
    requires AllSelected(l) && pos < Width(l.N(), h)
    ensures |Hashes(hash, l, h, pos)| == Hi(l.N(), h, pos) - Lo(h, pos)
    decreases h
  {
    hide Width, Pow, Lo, Hi, CalcHash, Bits, Hashes, ParentOfMatch;
    if h == 0 {
      OneStored(hash, l, 0, pos);
      LeafRange(l.N(), pos);
    } else {
      AllParents(l, h, pos);
      Halves(l.N(), h, pos);
      BuildUnfolds(hash, l, h, pos);
      AllHashes(hash, l, h - 1, 2 * pos);
      if 2 * pos + 1 < Width(l.N(), h - 1) {
        AllHashes(hash, l, h - 1, 2 * pos + 1);
      }
    }
  }

  lemma AllEdges(l: Leaves, h: nat)
    requires AllSelected(l) && h > 0
    ensures OddEdges(l, h) == OddEdges(l, h - 1) + Width(l.N(), h - 1) % 2
  {
    WidthPositive(l.N(), h);
    hide Width, ParentOfMatch;
    AllParents(l, h, Last(l.N(), h));
  }

  lemma LargeStep(l: Leaves, h: nat, w: nat, e: nat)
    requires AllSelected(l) && l.N() == 2049 && Width(2049, h) == w && OddEdges(l, h) == e
    ensures Width(2049, h + 1) == (w + 1) / 2 && OddEdges(l, h + 1) == e + w % 2
  {
    hide Width, OddEdges, AllSelected;
    WidthHalves(2049, h + 1);
    AllEdges(l, h + 1);
  }

  lemma NoEdges(l: Leaves)
    ensures OddEdges(l, 0) == 0
  {
  }

  lemma {:induction false} WidthsFall(n: nat, g: nat, h: nat)
    requires g <= h
    ensures Width(n, g) >= Width(n, h)
    decreases h - g
  {
    hide Width;
    if g < h {
      WidthHalves(n, g + 1);
      WidthsFall(n, g + 1, h);
    }
  }

  lemma LargeHeight()
    requires Width(2049, 11) == 2 && Width(2049, 12) == 1
    ensures IsHeight(2049, 12)
  {
    hide Width;
    forall g | 0 <= g < 12 ensures Width(2049, g) > 1 {
      WidthsFall(2049, g, 11);
    }
  }

  lemma LargeWidths(l: Leaves)
    requires AllSelected(l) && l.N() == 2049
    ensures Width(2049, 11) == 2 && Width(2049, 12) == 1 && OddEdges(l, 12) == 11
  {
    hide *;
    WidthZero(2049);
    NoEdges(l);
    LargeStep(l, 0, 2049, 0);
    LargeStep(l, 1, 1025, 1);
    LargeStep(l, 2, 513, 2);
    LargeStep(l, 3, 257, 3);
    LargeStep(l, 4, 129, 4);
    LargeStep(l, 5, 65, 5);
    LargeStep(l, 6, 33, 6);
    LargeStep(l, 7, 17, 7);
    LargeStep(l, 8, 9, 8);
    LargeStep(l, 9, 5, 9);
    LargeStep(l, 10, 3, 10);
    LargeStep(l, 11, 2, 11);
  }

  /** A block of 2049 transactions, all selected, takes one byte more than promised. */
  lemma LargeTreeOverruns(hash: NodeHash, l: Leaves)
    requires AllSelected(l) && l.N() == 2049
    ensures l.Ok() && IsHeight(2049, 12) && 0 < Width(2049, 12)
    ensures var n, bits := |Hashes(hash, l, 12, 0)|, |Bits(l, 12, 0)|;
            && n == 2049 && bits == 4108
            && SerializedSize(n, bits) == 66092 && PromisedSize(n) == 66091
  {
    LargeWidths(l);
    LargeHeight();
    RootCovers(2049, 12);
    hide Width, ParentOfMatch, Hashes, Bits, IsHeight, Lo, Hi, Pow, OddEdges, Last;
    BitsBoundIff(hash, l, 12);
    AllHashes(hash, l, 12, 0);
  }
}
