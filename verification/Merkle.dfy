/** The partial Merkle tree object of `src/merkleblock.cpp` and its packed form. */
module Merkle {
  import opened MerkleSpec
  import opened Powers
  import opened Bytes

  // ----- flag bits as bytes, least significant bit first -----

  /** Bit `p` of a byte string. */
  predicate BitAt(bytes: seq<bv8>, p: nat)
    requires p < 8 * |bytes|
  {
    Bit(bytes[p / 8], p % 8)
  }

  method BitsToBytes(bits: seq<bool>) returns (bytes: seq<bv8>)
    ensures |bytes| == (|bits| + 7) / 8
    ensures forall p | 0 <= p < 8 * |bytes| :: BitAt(bytes, p) == (p < |bits| && bits[p])
  {
    var ret := new bv8[(|bits| + 7) / 8](_ => 0);
    assert forall i | 0 <= i < 8 :: !Bit(0, i);
    for p := 0 to |bits|
      invariant forall q | 0 <= q < 8 * ret.Length :: Bit(ret[q / 8], q % 8) == (q < p && bits[q])
    {
      if bits[p] {
        ghost var before := ret[..];
        ret[p / 8] := ret[p / 8] | Mask(p % 8);
        forall q | 0 <= q < 8 * ret.Length
          ensures Bit(ret[q / 8], q % 8) == (q < p + 1 && bits[q])
        {
          if q / 8 == p / 8 {
            SetBit(before[p / 8], p % 8, q % 8);
          }
        }
      }
    }
    bytes := ret[..];
  }

  method BytesToBits(bytes: seq<bv8>) returns (bits: seq<bool>)
    ensures |bits| == 8 * |bytes|
    ensures forall p | 0 <= p < |bits| :: bits[p] == BitAt(bytes, p)
  {
    var ret := new bool[8 * |bytes|];
    for p := 0 to ret.Length
      invariant forall q | 0 <= q < p :: ret[q] == BitAt(bytes, q)
    {
      ret[p] := bytes[p / 8] & Mask(p % 8) != 0;
    }
    bits := ret[..];
  }

  /** Packing and unpacking gives the bits back, filled up with zeros. */
  lemma PackedBitsArePadded(bits: seq<bool>, bytes: seq<bv8>, back: seq<bool>)
    requires |bytes| == (|bits| + 7) / 8 && |back| == 8 * |bytes|
    requires forall p | 0 <= p < 8 * |bytes| :: BitAt(bytes, p) == (p < |bits| && bits[p])
    requires forall p | 0 <= p < |back| :: back[p] == BitAt(bytes, p)
    ensures back == Padded(bits)
  {
    PaddedLength(bits);
    forall p | 0 <= p < |back| ensures back[p] == Padded(bits)[p] {
      assert back[p] == BitAt(bytes, p);
    }
  }

  method TreeHeight(n: nat) returns (height: nat)
    ensures IsHeight(n, height)
  {
    height := 0;
    while Width(n, height) > 1
      invariant forall g | 0 <= g < height :: Width(n, g) > 1
      decreases Width(n, height)
    {
      WidthFalls(n, height);
      height := height + 1;
    }
  }

  class PartialMerkleTree {
    var nTransactions: nat
    var vBits: seq<bool>
    var vHash: seq<nat>
    var fBad: bool
    const hash: NodeHash

    constructor Build(hash: NodeHash, vTxid: seq<nat>, vMatch: seq<bool>)
      requires |vTxid| == |vMatch| > 0
      ensures this.hash == hash && nTransactions == |vTxid| && !fBad
      ensures forall h | IsHeight(|vTxid|, h) ::
                && 0 < Width(|vTxid|, h)
                && vBits == Bits(Leaves(vTxid, vMatch), h, 0)
                && vHash == Hashes(hash, Leaves(vTxid, vMatch), h, 0)
    {
      this.hash := hash;
      nTransactions, vBits, vHash, fBad := |vTxid|, [], [], false;
      new;
      var height := TreeHeight(nTransactions);
      RootCovers(nTransactions, height);
      TraverseAndBuild(height, 0, vTxid, vMatch);
      forall h | IsHeight(|vTxid|, h) ensures h == height {
        HeightIsUnique(|vTxid|, h, height);
      }
    }

    constructor Empty(hash: NodeHash)
      ensures this.hash == hash && nTransactions == 0 && vBits == [] && vHash == [] && fBad
    {
      this.hash := hash;
      nTransactions, vBits, vHash, fBad := 0, [], [], true;
    }

    constructor Read(hash: NodeHash, n: nat, hashes: seq<nat>, bytes: seq<bv8>)
      ensures this.hash == hash && nTransactions == n && vHash == hashes && !fBad
      ensures |vBits| == 8 * |bytes| && forall p | 0 <= p < |vBits| :: vBits[p] == BitAt(bytes, p)
    {
      this.hash := hash;
      nTransactions, vHash, vBits := n, hashes, [];
      fBad := false;
      new;
      vBits := BytesToBits(bytes);
    }

    method CalculateHash(height: nat, pos: nat, vTxid: seq<nat>) returns (r: nat)
      requires nTransactions == |vTxid| && pos < Width(|vTxid|, height)
      ensures r == CalcHash(hash, vTxid, height, pos)
      decreases height
    {
      hide Width;
      if height == 0 {
        LeafRange(|vTxid|, pos);
        r := vTxid[pos];
      } else {
        Halves(|vTxid|, height, pos);
        var left := CalculateHash(height - 1, pos * 2, vTxid);
        var right := left;
        if pos * 2 + 1 < Width(nTransactions, height - 1) {
          right := CalculateHash(height - 1, pos * 2 + 1, vTxid);
        }
        r := hash(left, right);
      }
    }

    method AnyMatchBelow(height: nat, pos: nat, vMatch: seq<bool>, ghost vTxid: seq<nat>) returns (f: bool)
      requires nTransactions == |vMatch| == |vTxid|
      ensures f == ParentOfMatch(Leaves(vTxid, vMatch), height, pos)
    {
      f := false;
      var p := pos * Pow(2, height);
      while p < (pos + 1) * Pow(2, height) && p < nTransactions
        invariant Lo(height, pos) <= p
        invariant f == exists q | 0 <= q < |vMatch| ::
                         Lo(height, pos) <= q < p && q < Hi(nTransactions, height, pos) && vMatch[q]
        decreases nTransactions - p
      {
        f := f || vMatch[p];
        p := p + 1;
      }
    }

    method TraverseAndBuild(height: nat, pos: nat, vTxid: seq<nat>, vMatch: seq<bool>)
      requires |vTxid| == |vMatch| == nTransactions > 0 && pos < Width(nTransactions, height)
      modifies this`vBits, this`vHash
      ensures vBits == old(vBits) + Bits(Leaves(vTxid, vMatch), height, pos)
      ensures vHash == old(vHash) + Hashes(hash, Leaves(vTxid, vMatch), height, pos)
      decreases height
    {
      hide Width, Pow, CalcHash, Bits, Hashes, ParentOfMatch, Lo, Hi;
      ghost var l := Leaves(vTxid, vMatch);
      var fParentOfMatch := AnyMatchBelow(height, pos, vMatch, vTxid);
      vBits := vBits + [fParentOfMatch];
      if height == 0 || !fParentOfMatch {
        var x := CalculateHash(height, pos, vTxid);
        vHash := vHash + [x];
        OneStored(hash, l, height, pos);
      } else {
        Halves(nTransactions, height, pos);
        BuildUnfolds(hash, l, height, pos);
        TraverseAndBuild(height - 1, pos * 2, vTxid, vMatch);
        if pos * 2 + 1 < Width(nTransactions, height - 1) {
          TraverseAndBuild(height - 1, pos * 2 + 1, vTxid, vMatch);
        }
      }
    }

    method TraverseAndExtract(height: nat, pos: nat, nBitsUsed: nat, nHashUsed: nat, vMatch: seq<nat>)
      returns (r: nat, bits: nat, hashes: nat, matches: seq<nat>)
      modifies this`fBad
      ensures (r, Cursor(bits, hashes, matches, fBad))
              == Extract(hash, nTransactions, vBits, vHash, height, pos,
                  Cursor(nBitsUsed, nHashUsed, vMatch, old(fBad)))
      decreases height
    {
      hide Width;
      r, bits, hashes, matches := 0, nBitsUsed, nHashUsed, vMatch;
      if bits >= |vBits| {
        fBad := true;
        return;
      }
      var fParentOfMatch := vBits[bits];
      bits := bits + 1;
      if height == 0 || !fParentOfMatch {
        if hashes >= |vHash| {
          fBad := true;
          return;
        }
        r := vHash[hashes];
        hashes := hashes + 1;
        if height == 0 && fParentOfMatch {
          matches := matches + [r];
        }
      } else {
        var left, right;
        left, bits, hashes, matches := TraverseAndExtract(height - 1, pos * 2, bits, hashes, matches);
        right := left;
        if pos * 2 + 1 < Width(nTransactions, height - 1) {
          right, bits, hashes, matches := TraverseAndExtract(height - 1, pos * 2 + 1, bits, hashes, matches);
        }
        r := hash(left, right);
      }
    }

    method ExtractAll() returns (root: nat, vMatch: seq<nat>)
      modifies this`fBad
      ensures forall h | IsHeight(nTransactions, h) ::
                (root, vMatch) == ExtractMatches(hash, nTransactions, vBits, vHash, h, old(fBad))
    {
      root, vMatch := 0, [];
      if nTransactions == 0 || nTransactions > MAX_BLOCK_SIZE_CURRENT / 60 || |vHash| > nTransactions
          || |vBits| < |vHash| {
        return;
      }
      var height := TreeHeight(nTransactions);
      var r, bits, hashes;
      r, bits, hashes, vMatch := TraverseAndExtract(height, 0, 0, 0, vMatch);
      forall h | IsHeight(nTransactions, h) ensures h == height {
        HeightIsUnique(nTransactions, h, height);
      }
      if fBad || (bits + 7) / 8 != (|vBits| + 7) / 8 || hashes != |vHash| {
        return;
      }
      root := r;
    }
  }

  lemma OneRoot(n: nat, height: nat)
    requires n > 0 && IsHeight(n, height)
    ensures Width(n, height) == 1
  {
    RootCovers(n, height);
  }

  /**
   A block's selected transactions, sent as a partial tree through bytes, arrive complete, in order
   and under the true root.
   */
  method SendSelected(hash: NodeHash, vTxid: seq<nat>, vMatch: seq<bool>) returns (root: nat, received: seq<nat>)
    requires 0 < |vTxid| == |vMatch| <= MAX_BLOCK_SIZE_CURRENT / 60
    ensures forall h | IsHeight(|vTxid|, h) :: Level(hash, vTxid, h) == [root]
    ensures received == Matched(Leaves(vTxid, vMatch), 0, |vTxid|)
  {
    hide Width, Pow, CalcHash, Bits, Hashes, Level, Matched, IsHeight, ExtractMatches, Padded, BitAt;
    var sent := new PartialMerkleTree.Build(hash, vTxid, vMatch);
    var bytes := BitsToBytes(sent.vBits);
    var got := new PartialMerkleTree.Read(hash, sent.nTransactions, sent.vHash, bytes);
    PackedBitsArePadded(sent.vBits, bytes, got.vBits);
    var h := TreeHeight(|vTxid|);
    RootCovers(|vTxid|, h);
    ghost var l := Leaves(vTxid, vMatch);
    assert got.vBits == Padded(Bits(l, h, 0)) && got.vHash == Hashes(hash, l, h, 0);
    root, received := got.ExtractAll();
    RoundTrip(hash, Leaves(vTxid, vMatch), h);
    assert got.nTransactions == |vTxid| && IsHeight(got.nTransactions, h);
    assert got.hash == hash;
    assert (root, received) == ExtractMatches(got.hash, got.nTransactions, got.vBits, got.vHash, h, false);
    assert (root, received) == ExtractMatches(hash, |vTxid|, got.vBits, got.vHash, h, false);
    assert (root, received) == (CalcHash(hash, vTxid, h, 0), Matched(Leaves(vTxid, vMatch), 0, |vTxid|));
    LevelIsCalcHash(hash, vTxid, h);
    OneRoot(|vTxid|, h);
    assert Level(hash, vTxid, h) == [root];
    forall g | IsHeight(|vTxid|, g) ensures g == h {
      HeightIsUnique(|vTxid|, g, h);
    }
  }
}
