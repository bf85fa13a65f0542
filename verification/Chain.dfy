/** The active chain of `src/chain.cpp`: one block for every height up to the tip, and what is found with it. */
module Chain {
  import opened Arithmetic
  import opened Powers
  import opened BlockTree

  const MAX_LOCATOR_SZ: nat := 101

  /** How far the locator steps back after its entry number `n`, counting from one. */
  function Step(n: nat): nat { if n <= 11 then 1 else Pow(2, n - 11) }

  /** How far it has come after `n` entries when it has not reached the first block. */
  function Travelled(n: nat): int { if n <= 11 then n else 9 + Pow(2, n - 10) }

  lemma TravelledStep(n: nat)
    requires n > 0
    ensures Travelled(n) == Travelled(n - 1) + Step(n)
  {
  }

  /** Heights of a 32-bit integer leave room for few entries. */
  lemma TravelledBound(n: nat)
    requires Travelled(n) < 0x8000_0000
    ensures n <= 40
  {
    if n > 40 {
      PowMonotone(2, 31, n - 10);
      PowersOfTwo();
    }
  }

  /** A list of blocks whose heights go down by the locator's steps until the first block. */
  ghost predicate Steps(have: seq<BlockIndex>) {
    forall i | 0 <= i < |have| - 1 :: have[i].nHeight > 0
        && have[i + 1].nHeight == Max(have[i].nHeight - Step(i + 1), 0)
  }

  lemma {:induction false} StepsDescend(have: seq<BlockIndex>, i: nat, j: nat)
    requires Steps(have) && i < j < |have|
    ensures have[j].nHeight < have[i].nHeight
  {
    PowPositive(2, if j <= 11 then 0 else j - 11);
    if i + 1 < j {
      StepsDescend(have, i, j - 1);
    }
  }

  /** Where a locator has come to: one by one over the first twelve entries, then twice as far back each time. */
  lemma {:induction false} HeightsAre(have: seq<BlockIndex>, i: nat)
    requires Steps(have) && i < |have|
    ensures have[i].nHeight == Max(have[0].nHeight - (if i <= 11 then i else 9 + Pow(2, i - 10)), 0)
  {
    if i > 0 {
      HeightsAre(have, i - 1);
      PowPositive(2, if i <= 11 then 0 else i - 11);
    }
  }

  /** Part of a locator for `b`: the entries so far, and the block to come next. */
  ghost predicate Partial(have: seq<BlockIndex>, b: BlockIndex, next: BlockIndex) {
    && b.Linked() && next.IsAncestorOf(b)
    && Steps(have + [next]) && (have + [next])[0] == b
    && (forall i | 0 <= i < |have| :: have[i].IsAncestorOf(b))
    && (next.nHeight == 0 || b.nHeight - next.nHeight >= Travelled(|have|))
    && (b.nHeight < 0x8000_0000 ==> |have| <= 41)
  }

  lemma PartialStart(b: BlockIndex)
    requires b.Linked()
    ensures Partial([], b, b)
  {
    assert ([] + [b])[0] == b;
  }

  /** The height the locator goes to next. */
  function NextHeight(n: nat, height: nat): nat { Max(height - Step(n), 0) }

  lemma PartialStep(have: seq<BlockIndex>, b: BlockIndex, p: BlockIndex, q: BlockIndex)
    requires Partial(have, b, p) && p.nHeight > 0
    requires q.nHeight == NextHeight(|have| + 1, p.nHeight) && q.IsAncestorOf(b)
    ensures Partial(have + [p], b, q)
  {
    hide Pow;
    TravelledStep(|have| + 1);
    if b.nHeight < 0x8000_0000 {
      TravelledBound(|have|);
    }
    var s, t := have + [p], (have + [p]) + [q];
    assert t[0] == s[0];
    forall i | 0 <= i < |t| - 1
      ensures t[i].nHeight > 0 && t[i + 1].nHeight == Max(t[i].nHeight - Step(i + 1), 0)
    {
      assert t[i] == s[i];
      if i + 1 < |s| {
        assert t[i + 1] == s[i + 1];
      }
    }
    forall i | 0 <= i < |s| ensures s[i].IsAncestorOf(b) {
      assert i < |have| ==> s[i] == have[i];
    }
  }

  /** A list that holds, at each height, a block of that height linked to the one below. */
  ghost predicate Linear(chain: seq<BlockIndex?>) {
    && (forall i | 0 <= i < |chain| :: chain[i] != null && chain[i].Linked() && chain[i].nHeight == i)
    && (forall i | 0 < i < |chain| :: chain[i].pprev == chain[i - 1])
  }

  /** Below a block of the chain, the chain holds exactly its ancestors. */
  lemma {:induction false} HoldsAncestors(chain: seq<BlockIndex?>, j: nat, i: nat)
    requires Linear(chain) && i <= j < |chain|
    ensures chain[j] != null && chain[j].Linked() && chain[j].nHeight == j && chain[i] == chain[j].Walk(i)
    decreases j
  {
    if i < j {
      HoldsAncestors(chain, j - 1, i);
    }
  }

  lemma AncestorsAreLinear(chain: seq<BlockIndex?>, tip: BlockIndex)
    requires tip.Linked() && |chain| == tip.nHeight + 1
    requires forall i | 0 <= i <= tip.nHeight :: chain[i] == tip.Walk(i)
    ensures Linear(chain)
  {
    forall i | 0 <= i <= tip.nHeight ensures chain[i].Linked() {
      tip.WalkLinked(i);
    }
    forall i | 0 < i <= tip.nHeight ensures chain[i].pprev == chain[i - 1] {
      tip.WalkOn(i, i - 1);
    }
  }

  class ActiveChain {
    var vChain: seq<BlockIndex?>

    constructor ()
      ensures vChain == [] && Valid()
    {
      vChain := [];
    }

    /** Each height holds its block, linked to the block below. */
    ghost predicate Valid()
      reads this
    {
      Linear(vChain)
    }

    function At(height: int): BlockIndex?
      reads this
    {
      if height < 0 || height >= |vChain| then null else vChain[height]
    }

    function Height(): int
      reads this
    {
      |vChain| - 1
    }

    function Tip(): BlockIndex?
      reads this
    {
      if |vChain| < 1 then null else vChain[|vChain| - 1]
    }

    predicate Contains(b: BlockIndex)
      reads this
    {
      At(b.nHeight) == b
    }

    function Next(b: BlockIndex): BlockIndex?
      reads this
    {
      if Contains(b) then At(b.nHeight + 1) else null
    }

    /** The chain is the ancestors of its tip, no more and no less. */
    lemma ContainsIffAncestorOfTip(b: BlockIndex)
      requires Valid()
      ensures Contains(b) <==> Tip() != null && b.IsAncestorOf(Tip())
    {
      if |vChain| > 0 && b.nHeight < |vChain| {
        HoldsAncestors(vChain, |vChain| - 1, b.nHeight);
      }
    }

    /** The successor of a block of the chain is the block of the chain whose parent it is. */
    lemma NextIsChild(b: BlockIndex)
      requires Valid()
      ensures Next(b) != null ==> Next(b).pprev == b && Contains(Next(b))
      ensures Contains(b) && Next(b) == null ==> b == Tip()
    {
    }

    /**
     Any block can become the tip, from any earlier chain.  Entries are replaced only as long as they differ,
     and still every height ends up with the new tip's ancestor.
     */
    method SetTip(tip: BlockIndex?)
      requires Valid() && (tip != null ==> tip.Linked())
      modifies this
      ensures Valid()
      ensures tip == null ==> vChain == []
      ensures tip != null ==> |vChain| == tip.nHeight + 1 && (forall i | 0 <= i <= tip.nHeight ::
          vChain[i] == tip.Walk(i))
    {
      if tip == null {
        vChain := [];
        return;
      }
      var size: nat := tip.nHeight + 1;
      vChain := if |vChain| >= size then vChain[..size] else vChain + seq(size - |vChain|, _ => null);
      ghost var kept: seq<BlockIndex?> := vChain;
      ghost var limit: nat := if old(|vChain|) < size then old(|vChain|) else size;
      var p: BlockIndex? := tip;
      while p != null && vChain[p.nHeight] != p
        invariant |vChain| == size && limit <= size
        invariant p != null ==> p.nHeight < size && p == tip.Walk(p.nHeight)
        invariant forall i | 0 <= i < size && (p == null || i > p.nHeight) :: vChain[i] == tip.Walk(i)
        invariant forall i | 0 <= i < size && p != null && i <= p.nHeight :: vChain[i] == kept[i]
        invariant forall i | 0 <= i < size :: if i < limit then kept[i] == old(vChain[i]) else kept[i] == null
        decreases if p == null then -1 else p.nHeight
      {
        vChain := vChain[p.nHeight := p];
        if p.nHeight > 0 {
          tip.WalkOn(p.nHeight, p.nHeight - 1);
        }
        p := p.pprev;
      }
      if p != null {
        // The entry is already there: the old chain holds all of its ancestors.
        forall i | 0 <= i < size ensures vChain[i] == tip.Walk(i) {
          if i <= p.nHeight {
            assert kept[p.nHeight] == p && old(vChain[p.nHeight]) == p;
            HoldsAncestors(old(vChain), p.nHeight, i);
            tip.WalkOn(p.nHeight, i);
          }
        }
      }
      AncestorsAreLinear(vChain, tip);
    }

    /** The highest block of the chain that is `b` or an ancestor of it; none exactly when they share no block. */
    method FindFork(b: BlockIndex?) returns (f: BlockIndex?)
      requires Valid() && (b != null ==> b.Linked())
      ensures f != null ==> b != null && f.IsAncestorOf(b) && Contains(f)
      ensures b != null ==>
                forall h: nat | h <= b.nHeight && Contains(b.Walk(h)) :: f != null && h <= f.nHeight
    {
      if b == null {
        return null;
      }
      var p: BlockIndex? := b;
      if b.nHeight > Height() {
        var q, _ := b.GetAncestor(Height());
        p := q;
      }
      while p != null && !Contains(p)
        invariant p != null ==> p.nHeight <= b.nHeight && p == b.Walk(p.nHeight)
        invariant forall h: nat | h <= b.nHeight && (p == null || h > p.nHeight) :: !Contains(b.Walk(h))
        decreases if p == null then -1 else p.nHeight
      {
        if p.nHeight > 0 {
          b.WalkOn(p.nHeight, p.nHeight - 1);
        }
        p := p.pprev;
      }
      f := p;
    }

    /**
     A locator starts at the block asked for, or the tip, goes down through its ancestors in growing steps and
     ends at the first block; it is short enough for a peer to accept.
     */
    method GetLocator(start: BlockIndex?) returns (have: seq<BlockIndex>)
      requires Valid() && (start != null ==> start.Linked())
      ensures
        var b := if start == null then Tip() else start;
        && (b == null ==> have == [])
        && (b != null ==>
              && b.Linked() && have != [] && have[0] == b && have[|have| - 1].nHeight == 0
              && Steps(have) && (forall i | 0 <= i < |have| :: have[i].IsAncestorOf(b))
              && (b.nHeight < 0x8000_0000 ==> |have| <= 42 < MAX_LOCATOR_SZ))
    {
      hide Pow, Steps, Partial, Linear;
      have := [];
      if start == null && Tip() == null {
        return;
      }
      TipIsLinked();
      var b: BlockIndex := if start == null then Tip() else start;
      PartialStart(b);
      var p := b;
      var nStep: nat := 1;
      while true
        invariant Partial(have, b, p) && nStep == Step(|have| + 1)
        decreases p.nHeight
      {
        PartialFacts(have, b, p);
        // The first block ends every locator.
        if p.nHeight == 0 {
          have := have + [p];
          break;
        }
        StepPositive(|have| + 1);
        var q := StepBack(p, b, nStep);
        PartialStep(have, b, p, q);
        have := have + [p];
        p := q;
        StepDoubles(|have|);
        if |have| > 10 {
          nStep := nStep * 2;
        }
      }
    }

    method StepBack(p: BlockIndex, ghost b: BlockIndex, nStep: nat) returns (q: BlockIndex)
      requires Valid() && b.Linked() && p.IsAncestorOf(b)
      ensures q.nHeight == Max(p.nHeight - nStep, 0) && q.IsAncestorOf(b)
    {
      hide Linear;
      var height := Max(p.nHeight - nStep, 0);
      b.WalkOn(p.nHeight, height);
      b.WalkLinked(p.nHeight);
      if Contains(p) {
        HoldsAncestors(vChain, p.nHeight, height);
        q := At(height);
      } else {
        var a, _ := p.GetAncestor(height);
        q := a;
      }
    }

    lemma TipIsLinked()
      requires Valid()
      ensures Tip() != null ==> Tip().Linked()
    {
    }
  }

  lemma PartialFacts(have: seq<BlockIndex>, b: BlockIndex, p: BlockIndex)
    requires Partial(have, b, p)
    ensures b.Linked() && p.IsAncestorOf(b) && Steps(have + [p]) && (have + [p])[0] == b
    ensures forall i | 0 <= i < |have + [p]| :: (have + [p])[i].IsAncestorOf(b)
    ensures b.nHeight < 0x8000_0000 ==> |have + [p]| <= 42
  {
  }

  lemma StepPositive(n: nat)
    ensures Step(n) > 0
  {
    if n > 11 {
      PowPositive(2, n - 11);
    }
  }

  lemma StepDoubles(n: nat)
    ensures Step(n + 1) == if n > 10 then Step(n) * 2 else Step(n)
  {
  }
}
