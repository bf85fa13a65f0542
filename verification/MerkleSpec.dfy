/**
 Partial Merkle trees of `src/merkleblock.cpp`, as values.

 Hashes are numbers, 0 the null hash, and the node hash is a parameter.  The two main results are the
 round trip (`RoundTrip`) and, for a collision-free node hash, that nothing but real transactions can be
 extracted under the true root (`OnlyRealMatches`).
 */
module MerkleSpec {
  import opened Powers
  import opened Arithmetic

  const MAX_BLOCK_SIZE_CURRENT: nat := 2000000

  /** The number of nodes at a height, over `n` leaves. */
  function Width(n: nat, h: nat): nat {
    PowPositive(2, h);
    (n + Pow(2, h) - 1) / Pow(2, h)
  }

  lemma DivCeil(n: nat, d: nat, pos: nat)
    requires d > 0
    ensures pos < (n + d - 1) / d <==> pos * d < n
  {
    var q := (n + d - 1) / d;
    var r := (n + d - 1) % d;
    assert n + d - 1 == q * d + r && 0 <= r < d;
    if pos < q {
      MulLe(pos + 1, q, d);
      assert (pos + 1) * d == pos * d + d;
    } else {
      MulLe(q, pos, d);
    }
  }

  /** A position exists at a height exactly when its first leaf does. */
  lemma WidthLeaf(n: nat, h: nat, pos: nat)
    ensures pos < Width(n, h) <==> pos * Pow(2, h) < n
  {
    PowPositive(2, h);
    DivCeil(n, Pow(2, h), pos);
  }

  /** The leaves below a node are those from `Lo` up to, not including, `Hi`. */
  function Lo(h: nat, pos: nat): nat { pos * Pow(2, h) }

  function Hi(n: nat, h: nat, pos: nat): int { Min((pos + 1) * Pow(2, h), n) }

  lemma Halves(n: nat, h: nat, pos: nat)
    requires h > 0 && pos < Width(n, h)
    ensures 2 * pos < Width(n, h - 1)
    ensures Lo(h - 1, 2 * pos) == Lo(h, pos)
    ensures 2 * pos + 1 < Width(n, h - 1) ==>
              && Lo(h, pos) <= Hi(n, h - 1, 2 * pos) == Lo(h - 1, 2 * pos + 1)
              && Lo(h - 1, 2 * pos + 1) <= Hi(n, h - 1, 2 * pos + 1) == Hi(n, h, pos)
    ensures 2 * pos + 1 >= Width(n, h - 1) ==> Hi(n, h - 1, 2 * pos) == Hi(n, h, pos)
    ensures Lo(h, pos) < Hi(n, h, pos) <= n
  {
    hide Width;
    WidthLeaf(n, h, pos);
    WidthLeaf(n, h - 1, 2 * pos);
    WidthLeaf(n, h - 1, 2 * pos + 1);
    PowPositive(2, h - 1);
    HalvesArith(pos, Pow(2, h - 1));
  }

  lemma HalvesArith(pos: nat, w: nat)
    ensures pos * (2 * w) == (2 * pos) * w
    ensures (2 * pos + 1) * w == (2 * pos) * w + w
    ensures (pos + 1) * (2 * w) == (2 * pos) * w + 2 * w == (2 * pos + 2) * w
  {
  }

  lemma LeafRange(n: nat, pos: nat)
    requires pos < Width(n, 0)
    ensures Lo(0, pos) == pos && Hi(n, 0, pos) == pos + 1 && pos < n
  {
    WidthLeaf(n, 0, pos);
  }

  /** The transactions and the mask that selects some of them. */
  datatype Leaves = Leaves(txids: seq<nat>, vMatch: seq<bool>) {
    predicate Ok() { |txids| == |vMatch| && |txids| > 0 }

    predicate AnyMatch(lo: nat, hi: int) {
      exists p | 0 <= p < |vMatch| :: lo <= p < hi && vMatch[p]
    }

    function N(): nat { |txids| }
  }

  /** The selected txids among the leaves from `lo` to `hi`, in order. */
  function Matched(l: Leaves, lo: nat, hi: int): seq<nat>
    requires l.Ok() && hi <= l.N()
    decreases hi
  {
    if lo >= hi then []
    else Matched(l, lo, hi - 1) + if l.vMatch[hi - 1] then [l.txids[hi - 1]] else []
  }

  lemma {:induction false} MatchedSplit(l: Leaves, lo: nat, mid: nat, hi: int)
    requires l.Ok() && lo <= mid <= hi <= l.N()
    ensures Matched(l, lo, hi) == Matched(l, lo, mid) + Matched(l, mid, hi)
    decreases hi
  {
    if mid < hi {
      MatchedSplit(l, lo, mid, hi - 1);
    }
  }

  lemma {:induction false} NoneMatched(l: Leaves, lo: nat, hi: int)
    requires l.Ok() && hi <= l.N()
    ensures l.AnyMatch(lo, hi) <==> Matched(l, lo, hi) != []
    decreases hi
  {
    if lo < hi {
      NoneMatched(l, lo, hi - 1);
      if l.AnyMatch(lo, hi) && !l.vMatch[hi - 1] {
        var p :| 0 <= p < |l.vMatch| && lo <= p < hi && l.vMatch[p];
        assert lo <= p < hi - 1;
      }
      if l.AnyMatch(lo, hi - 1) {
        var p :| 0 <= p < |l.vMatch| && lo <= p < hi - 1 && l.vMatch[p];
        assert lo <= p < hi;
      }
      if l.vMatch[hi - 1] {
        assert lo <= hi - 1 < hi;
      }
    }
  }

  // ----- hashing and building -----

  type NodeHash = (nat, nat) -> nat

  function CalcHash(hash: NodeHash, txids: seq<nat>, h: nat, pos: nat): nat
    requires pos < Width(|txids|, h)
    decreases h
  {
    if h == 0 then LeafRange(|txids|, pos); txids[pos]
    else
      Halves(|txids|, h, pos);
      var left := CalcHash(hash, txids, h - 1, 2 * pos);
      var right := if 2 * pos + 1 < Width(|txids|, h - 1) then CalcHash(hash, txids, h - 1, 2 * pos + 1) else left;
      hash(left, right)
  }

  predicate ParentOfMatch(l: Leaves, h: nat, pos: nat) {
    l.AnyMatch(Lo(h, pos), Hi(l.N(), h, pos))
  }

  /** The flag bits the traversal stores for a subtree. */
  function Bits(l: Leaves, h: nat, pos: nat): seq<bool>
    requires l.Ok() && pos < Width(l.N(), h)
    decreases h
  {
    var f := ParentOfMatch(l, h, pos);
    if h == 0 || !f then [f]
    else
      Halves(l.N(), h, pos);
      [f] + (Bits(l, h - 1, 2 * pos) + if 2 * pos + 1 < Width(l.N(), h - 1) then Bits(l, h - 1, 2 * pos + 1) else [])
  }

  /** The hashes it stores. */
  function Hashes(hash: NodeHash, l: Leaves, h: nat, pos: nat): seq<nat>
    requires l.Ok() && pos < Width(l.N(), h)
    decreases h
  {
    if h == 0 || !ParentOfMatch(l, h, pos) then [CalcHash(hash, l.txids, h, pos)]
    else
      Halves(l.N(), h, pos);
      Hashes(hash, l, h - 1, 2 * pos)
      + if 2 * pos + 1 < Width(l.N(), h - 1) then Hashes(hash, l, h - 1, 2 * pos + 1) else []
  }

  // ----- extracting -----

  /** How far an extraction has got, and whether it has run out of bits or hashes. */
  datatype Cursor = Cursor(bits: nat, hashes: nat, matches: seq<nat>, bad: bool)

  function Extract(hash: NodeHash, n: nat, vBits: seq<bool>, vHash: seq<nat>, h: nat, pos: nat,
          c: Cursor): (nat, Cursor)
    decreases h
  {
    if c.bits >= |vBits| then (0, c.(bad := true))
    else
      var f := vBits[c.bits];
      var c1 := c.(bits := c.bits + 1);
      if h == 0 || !f then
        if c1.hashes >= |vHash| then (0, c1.(bad := true))
        else
          var x := vHash[c1.hashes];
          (x, c1.(hashes := c1.hashes + 1, matches := if h == 0 && f then c1.matches + [x] else c1.matches))
      else
        var l := Extract(hash, n, vBits, vHash, h - 1, 2 * pos, c1);
        if 2 * pos + 1 < Width(n, h - 1) then
          var r := Extract(hash, n, vBits, vHash, h - 1, 2 * pos + 1, l.1);
          (hash(l.0, r.0), r.1)
        else (hash(l.0, l.0), l.1)
  }

  /** The least height with a single node. */
  predicate IsHeight(n: nat, h: nat) {
    Width(n, h) <= 1 && forall g | 0 <= g < h :: Width(n, g) > 1
  }

  function Start(bad: bool): Cursor { Cursor(0, 0, [], bad) }

  /** The root and the matches; the root is 0 when the data is rejected. */
  function ExtractMatches(hash: NodeHash, n: nat, vBits: seq<bool>, vHash: seq<nat>, height: nat,
          bad: bool): (nat, seq<nat>) {
    if n == 0 || n > MAX_BLOCK_SIZE_CURRENT / 60 || |vHash| > n || |vBits| < |vHash| then (0, [])
    else
      var r := Extract(hash, n, vBits, vHash, height, 0, Start(bad));
      if r.1.bad || (r.1.bits + 7) / 8 != (|vBits| + 7) / 8 || r.1.hashes != |vHash| then (0, r.1.matches)
      else (r.0, r.1.matches)
  }

  // ----- the round trip -----

  /** The lists hold the given pieces from the cursor on. */
  ghost predicate Ahead<T>(whole: seq<T>, from: nat, piece: seq<T>) {
    from + |piece| <= |whole| && whole[from..from + |piece|] == piece
  }

  lemma AheadSplit<T>(whole: seq<T>, from: nat, a: seq<T>, b: seq<T>)
    requires Ahead(whole, from, a + b)
    ensures Ahead(whole, from, a) && Ahead(whole, from + |a|, b)
  {
    var s := whole[from..from + |a + b|];
    assert whole[from..from + |a|] == s[..|a|] == a;
    assert whole[from + |a|..from + |a| + |b|] == s[|a|..] == b;
  }

  /** What extracting the subtree at a node ought to give, from a cursor on. */
  function Expected(hash: NodeHash, l: Leaves, h: nat, pos: nat, c: Cursor): (nat, Cursor)
    requires l.Ok() && pos < Width(l.N(), h) && Hi(l.N(), h, pos) <= l.N()
  {
    (CalcHash(hash, l.txids, h, pos),
     Cursor(c.bits + |Bits(l, h, pos)|, c.hashes + |Hashes(hash, l, h, pos)|,
            c.matches + Matched(l, Lo(h, pos), Hi(l.N(), h, pos)), c.bad))
  }

  lemma HiBound(n: nat, h: nat, pos: nat)
    ensures Hi(n, h, pos) <= n
  {
  }

  /** One stored hash stands for the whole subtree: a leaf, or a subtree with no match. */
  lemma ExtractStored(hash: NodeHash, l: Leaves, vBits: seq<bool>, vHash: seq<nat>, h: nat, pos: nat, c: Cursor)
    requires l.Ok() && pos < Width(l.N(), h)
    requires h == 0 || !ParentOfMatch(l, h, pos)
    requires Ahead(vBits, c.bits, Bits(l, h, pos)) && Ahead(vHash, c.hashes, Hashes(hash, l, h, pos))
    ensures Hi(l.N(), h, pos) <= l.N()
    ensures Extract(hash, l.N(), vBits, vHash, h, pos, c) == Expected(hash, l, h, pos, c)
  {
    hide Width, Pow, Lo, Hi, CalcHash;
    var f := ParentOfMatch(l, h, pos);
    HiBound(l.N(), h, pos);
    assert vBits[c.bits] == f by {
      assert vBits[c.bits..c.bits + 1][0] == f;
    }
    assert vHash[c.hashes] == CalcHash(hash, l.txids, h, pos) by {
      assert vHash[c.hashes..c.hashes + 1][0] == CalcHash(hash, l.txids, h, pos);
    }
    if h == 0 {
      LeafRange(l.N(), pos);
      LeafMatched(hash, l, pos);
      assert c.matches + [] == c.matches;
    } else {
      NoneMatched(l, Lo(h, pos), Hi(l.N(), h, pos));
      assert c.matches + [] == c.matches;
    }
  }

  lemma LeafMatched(hash: NodeHash, l: Leaves, pos: nat)
    requires l.Ok() && pos < Width(l.N(), 0)
    ensures pos < l.N() && CalcHash(hash, l.txids, 0, pos) == l.txids[pos]
    ensures ParentOfMatch(l, 0, pos) == l.vMatch[pos]
    ensures Matched(l, pos, pos + 1) == if l.vMatch[pos] then [l.txids[pos]] else []
  {
    LeafRange(l.N(), pos);
  }

  lemma ExtractUnfolds(hash: NodeHash, n: nat, vBits: seq<bool>, vHash: seq<nat>, h: nat, pos: nat, c: Cursor)
    requires h > 0 && c.bits < |vBits| && vBits[c.bits]
    ensures
      var l := Extract(hash, n, vBits, vHash, h - 1, 2 * pos, c.(bits := c.bits + 1));
      Extract(hash, n, vBits, vHash, h, pos, c)
      == if 2 * pos + 1 < Width(n, h - 1)
         then var r := Extract(hash, n, vBits, vHash, h - 1, 2 * pos + 1, l.1); (hash(l.0, r.0), r.1)
         else (hash(l.0, l.0), l.1)
  {
  }

  lemma BuildUnfolds(hash: NodeHash, l: Leaves, h: nat, pos: nat)
    requires h > 0 && l.Ok() && pos < Width(l.N(), h) && ParentOfMatch(l, h, pos)
    requires 2 * pos < Width(l.N(), h - 1)
    ensures
      if 2 * pos + 1 < Width(l.N(), h - 1) then
        && Bits(l, h, pos) == [true] + (Bits(l, h - 1, 2 * pos) + Bits(l, h - 1, 2 * pos + 1))
        && Hashes(hash, l, h, pos) == Hashes(hash, l, h - 1, 2 * pos) + Hashes(hash, l, h - 1, 2 * pos + 1)
        && CalcHash(hash, l.txids, h, pos)
           == hash(CalcHash(hash, l.txids, h - 1, 2 * pos), CalcHash(hash, l.txids, h - 1, 2 * pos + 1))
      else
        && Bits(l, h, pos) == [true] + Bits(l, h - 1, 2 * pos)
        && Hashes(hash, l, h, pos) == Hashes(hash, l, h - 1, 2 * pos)
        && CalcHash(hash, l.txids, h, pos)
           == hash(CalcHash(hash, l.txids, h - 1, 2 * pos), CalcHash(hash, l.txids, h - 1, 2 * pos))
  {
    hide Width, Pow, ParentOfMatch, Lo, Hi;
  }

  lemma FirstAhead<T>(whole: seq<T>, from: nat, x: T, rest: seq<T>)
    requires Ahead(whole, from, [x] + rest)
    ensures from < |whole| && whole[from] == x && Ahead(whole, from + 1, rest)
  {
    AheadSplit(whole, from, [x], rest);
    assert whole[from..from + 1][0] == x;
  }

  /** Extracting what building stored for a subtree consumes exactly that and yields its hash and matches. */
  lemma {:induction false} ExtractBuilt(hash: NodeHash, l: Leaves, vBits: seq<bool>, vHash: seq<nat>, h: nat, pos: nat,
          c: Cursor)
    requires l.Ok() && pos < Width(l.N(), h)
    requires Ahead(vBits, c.bits, Bits(l, h, pos)) && Ahead(vHash, c.hashes, Hashes(hash, l, h, pos))
    ensures Hi(l.N(), h, pos) <= l.N()
    ensures Extract(hash, l.N(), vBits, vHash, h, pos, c) == Expected(hash, l, h, pos, c)
    decreases h
  {
    hide Width, Pow, ParentOfMatch, Lo, Hi, CalcHash, Bits, Hashes, Extract, Ahead, Matched;
    HiBound(l.N(), h, pos);
    if h == 0 || !ParentOfMatch(l, h, pos) {
      ExtractStored(hash, l, vBits, vHash, h, pos, c);
    } else {
      var n := l.N();
      Halves(n, h, pos);
      BuildUnfolds(hash, l, h, pos);
      var c1 := c.(bits := c.bits + 1);
      if 2 * pos + 1 < Width(n, h - 1) {
        var bl, br := Bits(l, h - 1, 2 * pos), Bits(l, h - 1, 2 * pos + 1);
        FirstAhead(vBits, c.bits, true, bl + br);
        AheadSplit(vBits, c.bits + 1, bl, br);
        AheadSplit(vHash, c.hashes, Hashes(hash, l, h - 1, 2 * pos), Hashes(hash, l, h - 1, 2 * pos + 1));
        ExtractBuilt(hash, l, vBits, vHash, h - 1, 2 * pos, c1);
        var c2 := Expected(hash, l, h - 1, 2 * pos, c1).1;
        ExtractBuilt(hash, l, vBits, vHash, h - 1, 2 * pos + 1, c2);
        MatchedSplit(l, Lo(h, pos), Lo(h - 1, 2 * pos + 1), Hi(n, h, pos));
        assert c2.matches + Matched(l, Lo(h - 1, 2 * pos + 1), Hi(n, h, pos))
            == c.matches + Matched(l, Lo(h, pos), Hi(n, h, pos));
      } else {
        FirstAhead(vBits, c.bits, true, Bits(l, h - 1, 2 * pos));
        ExtractBuilt(hash, l, vBits, vHash, h - 1, 2 * pos, c1);
      }
      ExtractUnfolds(hash, n, vBits, vHash, h, pos, c);
    }
  }

  // ----- how much is stored -----

  lemma {:induction false} StoredCounts(hash: NodeHash, l: Leaves, h: nat, pos: nat)
    requires l.Ok() && pos < Width(l.N(), h)
    ensures Lo(h, pos) < Hi(l.N(), h, pos) <= l.N()
    ensures 1 <= |Hashes(hash, l, h, pos)| <= |Bits(l, h, pos)|
    ensures |Hashes(hash, l, h, pos)| <= Hi(l.N(), h, pos) - Lo(h, pos)
    ensures |Hashes(hash, l, h, pos)| <= 1 + |Matched(l, Lo(h, pos), Hi(l.N(), h, pos))| * h
    decreases h
  {
    hide Width, Pow, Lo, Hi, CalcHash, Bits, Hashes, Matched, Leaves.AnyMatch;
    var n := l.N();
    NodeHasLeaf(n, h, pos);
    if h == 0 || !ParentOfMatch(l, h, pos) {
      OneStored(hash, l, h, pos);
      MulNonNegative(|Matched(l, Lo(h, pos), Hi(n, h, pos))|, h);
    } else {
      NoneMatched(l, Lo(h, pos), Hi(n, h, pos));
      Halves(n, h, pos);
      BuildUnfolds(hash, l, h, pos);
      StoredCounts(hash, l, h - 1, 2 * pos);
      if 2 * pos + 1 < Width(n, h - 1) {
        StoredCounts(hash, l, h - 1, 2 * pos + 1);
        MatchedSplit(l, Lo(h, pos), Lo(h - 1, 2 * pos + 1), Hi(n, h, pos));
        CountStep(|Matched(l, Lo(h, pos), Lo(h - 1, 2 * pos + 1))|,
            |Matched(l, Lo(h - 1, 2 * pos + 1), Hi(n, h, pos))|, h);
      } else {
        CountStep(|Matched(l, Lo(h, pos), Hi(n, h, pos))|, 0, h);
      }
    }
  }

  lemma NodeHasLeaf(n: nat, h: nat, pos: nat)
    requires pos < Width(n, h)
    ensures Lo(h, pos) < Hi(n, h, pos) <= n
  {
    WidthLeaf(n, h, pos);
    PowPositive(2, h);
    assert (pos + 1) * Pow(2, h) == pos * Pow(2, h) + Pow(2, h);
  }

  lemma OneStored(hash: NodeHash, l: Leaves, h: nat, pos: nat)
    requires l.Ok() && pos < Width(l.N(), h) && (h == 0 || !ParentOfMatch(l, h, pos))
    ensures Bits(l, h, pos) == [ParentOfMatch(l, h, pos)]
        && Hashes(hash, l, h, pos) == [CalcHash(hash, l.txids, h, pos)]
  {
  }

  lemma CountStep(a: nat, b: nat, h: nat)
    requires h > 0 && a + b > 0
    ensures (1 + a * (h - 1)) + (1 + b * (h - 1)) <= 1 + (a + b) * h
    ensures 1 + a * (h - 1) <= 1 + a * h
  {
    assert (a + b) * h == a * (h - 1) + b * (h - 1) + a + b;
    assert a * h == a * (h - 1) + a;
  }

  // ----- the packed form of the bits -----

  /** The bits as they come back from a byte string: filled up with zero bits to a whole number of bytes. */
  function Padded(bits: seq<bool>): seq<bool> {
    bits + seq((8 - |bits| % 8) % 8, _ => false)
  }

  lemma PaddedLength(bits: seq<bool>)
    ensures |Padded(bits)| == 8 * ((|bits| + 7) / 8)
    ensures (|Padded(bits)| + 7) / 8 == (|bits| + 7) / 8
  {
  }

  lemma RootCovers(n: nat, height: nat)
    requires n > 0 && IsHeight(n, height)
    ensures 0 < Width(n, height) && Lo(height, 0) == 0 && Hi(n, height, 0) == n
  {
    WidthLeaf(n, height, 0);
    WidthLeaf(n, height, 1);
    PowPositive(2, height);
  }

  /**
   What is built from any transactions and any mask, stored through padded bytes, is accepted, and gives back
   the root and exactly the selected transactions in their order.
   */
  lemma RoundTrip(hash: NodeHash, l: Leaves, height: nat)
    requires l.Ok() && l.N() <= MAX_BLOCK_SIZE_CURRENT / 60 && IsHeight(l.N(), height)
    ensures 0 < Width(l.N(), height)
    ensures ExtractMatches(hash, l.N(), Padded(Bits(l, height, 0)), Hashes(hash, l, height, 0), height, false)
            == (CalcHash(hash, l.txids, height, 0), Matched(l, 0, l.N()))
    ensures |Hashes(hash, l, height, 0)| <= l.N()
    ensures |Hashes(hash, l, height, 0)| <= 1 + |Matched(l, 0, l.N())| * height
  {
    hide Width, Pow, Lo, Hi, CalcHash, Bits, Hashes, Extract, Matched, IsHeight;
    RootCovers(l.N(), height);
    var bits, hashes := Bits(l, height, 0), Hashes(hash, l, height, 0);
    StoredCounts(hash, l, height, 0);
    PaddedLength(bits);
    assert Padded(bits)[0..|bits|] == bits;
    assert hashes[0..|hashes|] == hashes;
    ExtractBuilt(hash, l, Padded(bits), hashes, height, 0, Start(false));
    assert [] + Matched(l, 0, l.N()) == Matched(l, 0, l.N());
  }

  // ----- the root, level by level -----

  /** One level of the tree from the one below it, the last hash paired with itself when it is alone. */
  function NextLevel(hash: NodeHash, s: seq<nat>): seq<nat> {
    seq((|s| + 1) / 2,
        i requires 0 <= i < (|s| + 1) / 2 => hash(s[2 * i], if 2 * i + 1 < |s| then s[2 * i + 1] else s[2 * i]))
  }

  function Level(hash: NodeHash, txids: seq<nat>, h: nat): seq<nat> {
    if h == 0 then txids else NextLevel(hash, Level(hash, txids, h - 1))
  }

  lemma {:induction false} LevelIsCalcHash(hash: NodeHash, txids: seq<nat>, h: nat)
    ensures |Level(hash, txids, h)| == Width(|txids|, h)
    ensures forall pos | 0 <= pos < Width(|txids|, h) :: Level(hash, txids, h)[pos] == CalcHash(hash, txids, h, pos)
  {
    hide Width, Pow, CalcHash;
    var n := |txids|;
    if h == 0 {
      WidthZero(n);
      forall pos | 0 <= pos < n ensures txids[pos] == CalcHash(hash, txids, 0, pos) {
        CalcHashLeaf(hash, txids, pos);
      }
    } else {
      LevelIsCalcHash(hash, txids, h - 1);
      WidthHalves(n, h);
      forall pos | 0 <= pos < Width(n, h) ensures Level(hash, txids, h)[pos] == CalcHash(hash, txids, h, pos) {
        CalcHashUnfolds(hash, txids, h, pos);
      }
    }
  }

  lemma CalcHashLeaf(hash: NodeHash, txids: seq<nat>, pos: nat)
    requires pos < Width(|txids|, 0)
    ensures pos < |txids| && CalcHash(hash, txids, 0, pos) == txids[pos]
  {
    LeafRange(|txids|, pos);
  }

  lemma WidthZero(n: nat)
    ensures Width(n, 0) == n
  {
  }

  lemma WidthHalves(n: nat, h: nat)
    requires h > 0
    ensures Width(n, h) == (Width(n, h - 1) + 1) / 2
  {
    hide Width;
    var w := Width(n, h);
    if w > 0 {
      Halves(n, h, w - 1);
    }
    WidthLeaf(n, h, w);
    WidthLeaf(n, h - 1, 2 * w);
    HalvesArith(w, Pow(2, h - 1));
  }

  // ----- only real transactions -----

  ghost predicate Injective(hash: NodeHash) {
    forall a, b, c, d :: hash(a, b) == hash(c, d) ==> a == c && b == d
  }

  /** Positions in increasing order, all from `lo` up to, not including, `hi`. */
  ghost predicate Ascending(ps: seq<nat>, lo: nat, hi: int) {
    && (forall i | 0 <= i < |ps| :: lo <= ps[i] < hi)
    && (forall i, j | 0 <= i < j < |ps| :: ps[i] < ps[j])
  }

  function At(txids: seq<nat>, ps: seq<nat>): seq<nat>
    requires forall i | 0 <= i < |ps| :: ps[i] < |txids|
  {
    seq(|ps|, i requires 0 <= i < |ps| => txids[ps[i]])
  }

  lemma AscendingJoin(txids: seq<nat>, ps: seq<nat>, qs: seq<nat>, lo: nat, mid: int, hi: int)
    requires Ascending(ps, lo, mid) && lo <= mid <= hi <= |txids| && Ascending(qs, mid, hi)
    ensures Ascending(ps + qs, lo, hi)
    ensures At(txids, ps + qs) == At(txids, ps) + At(txids, qs)
  {
    var s := ps + qs;
    forall i, j | 0 <= i < j < |s| ensures s[i] < s[j] {
      if i < |ps| && j >= |ps| {
        assert s[i] == ps[i] && s[j] == qs[j - |ps|];
      }
    }
  }

  lemma {:induction false} BadStays(hash: NodeHash, n: nat, vBits: seq<bool>, vHash: seq<nat>, h: nat, pos: nat,
          c: Cursor)
    requires c.bad
    ensures Extract(hash, n, vBits, vHash, h, pos, c).1.bad
    decreases h
  {
    hide Width;
    if c.bits < |vBits| && vBits[c.bits] && h > 0 {
      var c1 := c.(bits := c.bits + 1);
      BadStays(hash, n, vBits, vHash, h - 1, 2 * pos, c1);
      BadStays(hash, n, vBits, vHash, h - 1, 2 * pos + 1, Extract(hash, n, vBits, vHash, h - 1, 2 * pos, c1).1);
    }
  }

  lemma BitsRemain(hash: NodeHash, n: nat, vBits: seq<bool>, vHash: seq<nat>, h: nat, pos: nat, c: Cursor)
    requires !Extract(hash, n, vBits, vHash, h, pos, c).1.bad
    ensures c.bits < |vBits|
  {
  }

  lemma Collide(hash: NodeHash, a: nat, b: nat, c: nat, d: nat)
    requires Injective(hash) && hash(a, b) == hash(c, d)
    ensures a == c && b == d
  {
  }

  lemma CalcHashUnfolds(hash: NodeHash, txids: seq<nat>, h: nat, pos: nat)
    requires h > 0 && pos < Width(|txids|, h) && 2 * pos < Width(|txids|, h - 1)
    ensures CalcHash(hash, txids, h, pos)
            == if 2 * pos + 1 < Width(|txids|, h - 1)
               then hash(CalcHash(hash, txids, h - 1, 2 * pos), CalcHash(hash, txids, h - 1, 2 * pos + 1))
               else hash(CalcHash(hash, txids, h - 1, 2 * pos), CalcHash(hash, txids, h - 1, 2 * pos))
  {
    hide Width;
  }

  lemma RealStored(hash: NodeHash, txids: seq<nat>, vBits: seq<bool>, vHash: seq<nat>, h: nat, pos: nat, c: Cursor)
    returns (ps: seq<nat>)
    requires pos < Width(|txids|, h) && c.bits < |vBits| && (h == 0 || !vBits[c.bits])
    requires !Extract(hash, |txids|, vBits, vHash, h, pos, c).1.bad
    requires Extract(hash, |txids|, vBits, vHash, h, pos, c).0 == CalcHash(hash, txids, h, pos)
    ensures Ascending(ps, Lo(h, pos), Hi(|txids|, h, pos)) && Hi(|txids|, h, pos) <= |txids|
    ensures Extract(hash, |txids|, vBits, vHash, h, pos, c).1.matches == c.matches + At(txids, ps)
  {
    hide Width, Pow, Lo, Hi;
    HiBound(|txids|, h, pos);
    if h == 0 && vBits[c.bits] {
      LeafRange(|txids|, pos);
      ps := [pos];
      assert At(txids, ps) == [txids[pos]];
    } else {
      ps := [];
      assert c.matches + At(txids, ps) == c.matches;
    }
  }

  lemma AscendingInside(ps: seq<nat>, lo: nat, hi: int, n: nat)
    requires Ascending(ps, lo, hi) && hi <= n
    ensures forall i | 0 <= i < |ps| :: ps[i] < n
  {
  }

  /** A subtree that extracts to the true hash adds real transactions only, at increasing positions below it. */
  lemma {:induction false} OnlyRealBelow(hash: NodeHash, txids: seq<nat>, vBits: seq<bool>, vHash: seq<nat>, h: nat,
          pos: nat, c: Cursor)
    returns (ps: seq<nat>)
    requires Injective(hash) && pos < Width(|txids|, h)
    requires !Extract(hash, |txids|, vBits, vHash, h, pos, c).1.bad
    requires Extract(hash, |txids|, vBits, vHash, h, pos, c).0 == CalcHash(hash, txids, h, pos)
    ensures Ascending(ps, Lo(h, pos), Hi(|txids|, h, pos)) && Hi(|txids|, h, pos) <= |txids|
    ensures Extract(hash, |txids|, vBits, vHash, h, pos, c).1.matches == c.matches + At(txids, ps)
    decreases h
  {
    hide Width, Pow, Lo, Hi, Extract, CalcHash, Ascending, Injective;
    var n := |txids|;
    HiBound(n, h, pos);
    BitsRemain(hash, n, vBits, vHash, h, pos, c);
    if h == 0 || !vBits[c.bits] {
      ps := RealStored(hash, txids, vBits, vHash, h, pos, c);
    } else {
      Halves(n, h, pos);
      ExtractUnfolds(hash, n, vBits, vHash, h, pos, c);
      CalcHashUnfolds(hash, txids, h, pos);
      var c1 := c.(bits := c.bits + 1);
      var l := Extract(hash, n, vBits, vHash, h - 1, 2 * pos, c1);
      if 2 * pos + 1 < Width(n, h - 1) {
        if l.1.bad {
          BadStays(hash, n, vBits, vHash, h - 1, 2 * pos + 1, l.1);
        }
        Collide(hash, l.0, Extract(hash, n, vBits, vHash, h - 1, 2 * pos + 1, l.1).0,
                CalcHash(hash, txids, h - 1, 2 * pos), CalcHash(hash, txids, h - 1, 2 * pos + 1));
        var qs := OnlyRealBelow(hash, txids, vBits, vHash, h - 1, 2 * pos, c1);
        var rs := OnlyRealBelow(hash, txids, vBits, vHash, h - 1, 2 * pos + 1, l.1);
        AscendingInside(qs, Lo(h, pos), Lo(h - 1, 2 * pos + 1), n);
        AscendingInside(rs, Lo(h - 1, 2 * pos + 1), Hi(n, h, pos), n);
        AscendingJoin(txids, qs, rs, Lo(h, pos), Lo(h - 1, 2 * pos + 1), Hi(n, h, pos));
        ps := qs + rs;
        assert c.matches + At(txids, qs) + At(txids, rs) == c.matches + (At(txids, qs) + At(txids, rs));
      } else {
        Collide(hash, l.0, l.0, CalcHash(hash, txids, h - 1, 2 * pos), CalcHash(hash, txids, h - 1, 2 * pos));
        ps := OnlyRealBelow(hash, txids, vBits, vHash, h - 1, 2 * pos, c1);
      }
    }
  }

  /**
   Whatever bits and hashes are presented: if they extract to the true root of the block, the matches are
   transactions of the block, taken at strictly increasing positions.  The node hash must have no collisions
   and the root must not be the null hash, which also stands for failure.
   */
  lemma OnlyRealMatches(hash: NodeHash, txids: seq<nat>, vBits: seq<bool>, vHash: seq<nat>, height: nat, bad: bool)
    requires Injective(hash) && |txids| > 0 && IsHeight(|txids|, height)
    ensures 0 < Width(|txids|, height)
    ensures
      var r := ExtractMatches(hash, |txids|, vBits, vHash, height, bad);
      r.0 == CalcHash(hash, txids, height, 0) && r.0 != 0 ==>
        exists ps: seq<nat> :: Ascending(ps, 0, |txids|) && r.1 == At(txids, ps)
  {
    hide Width, Pow, Lo, Hi, CalcHash, Extract, IsHeight;
    RootCovers(|txids|, height);
    var r := ExtractMatches(hash, |txids|, vBits, vHash, height, bad);
    if r.0 == CalcHash(hash, txids, height, 0) && r.0 != 0 {
      var ps := OnlyRealBelow(hash, txids, vBits, vHash, height, 0, Start(bad));
      assert r.1 == [] + At(txids, ps) == At(txids, ps);
    }
  }

  lemma {:induction false} WidthsAbove(n: nat, h: nat)
    requires Width(n, h) > 1
    ensures forall g | 0 <= g <= h :: Width(n, g) > 1
  {
    hide Width;
    if h > 0 {
      WidthHalves(n, h);
      WidthsAbove(n, h - 1);
    }
  }

  lemma HeightIsUnique(n: nat, h: nat, g: nat)
    requires IsHeight(n, h) && IsHeight(n, g)
    ensures h == g
  {
    hide Width;
  }

  lemma WidthFalls(n: nat, h: nat)
    requires Width(n, h) > 1
    ensures Width(n, h + 1) < Width(n, h)
  {
    hide Width;
    WidthHalves(n, h + 1);
  }
}
