/**
 The block index tree of `src/chain.cpp`: parent links, skip links, and the fast ancestor lookup, which agrees
 with the plain walk along the parents.
 */
module BlockTree {
  import opened SkipList

  // ----- the tree -----

  class BlockIndex {
    const pprev: BlockIndex?
    const pskip: BlockIndex?
    const nHeight: nat

    /** A new entry on top of `prev`, with its skip link built. */
    constructor (prev: BlockIndex?)
      requires prev == null || prev.Linked()
      ensures pprev == prev && Linked()
    {
      pprev := prev;
      if prev == null {
        nHeight := 0;
        pskip := null;
      } else {
        nHeight := prev.nHeight + 1;
        SkipGoesBack(prev.nHeight + 1);
        var skip, _ := prev.GetAncestor(GetSkipHeight(prev.nHeight + 1));
        pskip := skip;
      }
    }

    /** Heights count the parents down to a first block. */
    ghost predicate Rooted()
      decreases nHeight
    {
      if pprev == null then nHeight == 0 else nHeight == pprev.nHeight + 1 && pprev.Rooted()
    }

    /** The ancestor at a height, by walking the parents. */
    ghost function Walk(height: nat): (a: BlockIndex)
      requires Rooted() && height <= nHeight
      ensures a.Rooted() && a.nHeight == height
      decreases nHeight
    {
      if height == nHeight then this else pprev.Walk(height)
    }

    /** Every skip link below and here is the ancestor at its skip height. */
    ghost predicate Linked()
      decreases nHeight
    {
      && Rooted()
      && (pprev != null ==>
            && pprev.Linked()
            && GetSkipHeight(nHeight) <= pprev.nHeight
            && pskip == pprev.Walk(GetSkipHeight(nHeight)))
    }

    lemma {:induction false} WalkLinked(height: nat)
      requires Linked() && height <= nHeight
      ensures Walk(height).Linked()
      decreases nHeight
    {
      if height < nHeight {
        pprev.WalkLinked(height);
      }
    }

    /** Walking on from an ancestor is walking from here. */
    lemma {:induction false} WalkOn(mid: nat, height: nat)
      requires Rooted() && height <= mid <= nHeight
      ensures Walk(mid).Walk(height) == Walk(height)
      decreases nHeight
    {
      if mid < nHeight {
        pprev.WalkOn(mid, height);
      }
    }

    /** The lookup by skip links finds what the walk finds; heights that do not exist give nothing. */
    method GetAncestor(height: int) returns (a: BlockIndex?, ghost steps: nat)
      requires Linked()
      ensures a == null <==> height > nHeight || height < 0
      ensures a != null ==> a == Walk(height) && a.Linked()
      ensures 0 <= height && nHeight - height <= 0x4_0000 ==> steps <= 110
      ensures 0 <= height <= nHeight ==> steps == Cost(nHeight, height)
    {
      hide Cost, GetSkipHeight;
      steps := 0;
      if height > nHeight || height < 0 {
        return null, 0;
      }
      LookupBound(nHeight, height);
      SkipList.CostNothing(height);
      var walk: BlockIndex := this;
      var heightWalk := nHeight;
      while heightWalk > height
        invariant height <= heightWalk <= nHeight && walk == Walk(heightWalk) && walk.Linked()
        invariant steps + Cost(heightWalk, height) == Cost(nHeight, height)
        decreases heightWalk
      {
        var heightSkip := GetSkipHeight(heightWalk);
        var heightSkipPrev := GetSkipHeight(heightWalk - 1);
        SkipGoesBack(heightWalk);
        SkipList.Next(heightWalk, height);
        WalkOn(heightWalk, heightWalk - 1);
        WalkOn(heightWalk, heightSkip);
        WalkLinked(heightSkip);
        WalkLinked(heightWalk - 1);
        if heightSkip == height ||
           (heightSkip > height && !(heightSkipPrev < heightSkip - 2 && heightSkipPrev >= height)) {
          walk := walk.pskip;
          heightWalk := heightSkip;
        } else {
          walk := walk.pprev;
          heightWalk := heightWalk - 1;
        }
        steps := steps + 1;
      }
      a := walk;
    }

    /** `this` is `b` or one of its ancestors. */
    ghost predicate IsAncestorOf(b: BlockIndex)
      requires b.Rooted()
    {
      nHeight <= b.nHeight && b.Walk(nHeight) == this
    }
  }

  // ----- two branches -----

  /** The highest block on both branches; none when they start from different first blocks. */
  method LastCommonAncestor(a: BlockIndex, b: BlockIndex) returns (c: BlockIndex?)
    requires a.Linked() && b.Linked()
    ensures c != null ==> c.IsAncestorOf(a) && c.IsAncestorOf(b)
    ensures forall h: nat | h <= a.nHeight && h <= b.nHeight && a.Walk(h) == b.Walk(h) :: c != null && h <= c.nHeight
  {
    hide Cost, GetSkipHeight;
    var pa: BlockIndex?, pb: BlockIndex? := a, b;
    if pa.nHeight > pb.nHeight {
      var p, _ := pa.GetAncestor(pb.nHeight);
      pa := p;
    } else if pb.nHeight > pa.nHeight {
      var p, _ := pb.GetAncestor(pa.nHeight);
      pb := p;
    }
    ghost var top := pa.nHeight;
    while pa != pb && pa != null && pb != null
      invariant (pa == null) == (pb == null)
      invariant pa != null ==> pa.nHeight == pb.nHeight <= top && pa == a.Walk(pa.nHeight) && pb == b.Walk(pb.nHeight)
      invariant forall h: nat | h <= top && (pa == null || h > pa.nHeight) :: a.Walk(h) != b.Walk(h)
      decreases if pa == null then -1 else pa.nHeight
    {
      if pa.nHeight > 0 {
        a.WalkOn(pa.nHeight, pa.nHeight - 1);
        b.WalkOn(pa.nHeight, pa.nHeight - 1);
      }
      pa := pa.pprev;
      pb := pb.pprev;
    }
    assert pa == pb;
    c := pa;
  }
}
