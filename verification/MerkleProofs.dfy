/**
 What a partial Merkle tree is, apart from any traversal: a tree of stored hashes that goes down to flagged leaves.
 `ExtractMatches` of `src/merkleblock.cpp` accepts a list of bits and one of hashes if and only if together they
 spell out such a tree, down to the last hash and the last byte of bits.
 */
module MerkleProofs {
  import opened MerkleSpec

  datatype Proof =
    | Stored(flag: bool, hash: nat)
    | One(only: Proof)
    | Two(left: Proof, right: Proof)

  /** The tree stands at a node: it forks where the node has two children, and flags no stored hash but a leaf. */
  predicate Fits(p: Proof, n: nat, h: nat, pos: nat)
    decreases h
  {
    match p
    case Stored(flag, _) => flag ==> h == 0
    case One(only) => h > 0 && 2 * pos + 1 >= Width(n, h - 1) && Fits(only, n, h - 1, 2 * pos)
    case Two(left, right) =>
      && h > 0 && 2 * pos + 1 < Width(n, h - 1)
      && Fits(left, n, h - 1, 2 * pos) && Fits(right, n, h - 1, 2 * pos + 1)
  }

  /** Its flags, a node before its children and the left child before the right one. */
  function Flags(p: Proof): (r: seq<bool>)
    ensures |r| > 0
  {
    match p
    case Stored(flag, _) => [flag]
    case One(only) => [true] + Flags(only)
    case Two(left, right) => [true] + (Flags(left) + Flags(right))
  }

  function Stores(p: Proof): (r: seq<nat>)
    ensures |r| > 0
  {
    match p
    case Stored(_, hash) => [hash]
    case One(only) => Stores(only)
    case Two(left, right) => Stores(left) + Stores(right)
  }

  function Picks(p: Proof): seq<nat> {
    match p
    case Stored(flag, hash) => if flag then [hash] else []
    case One(only) => Picks(only)
    case Two(left, right) => Picks(left) + Picks(right)
  }

  function RootOf(hash: NodeHash, p: Proof): nat {
    match p
    case Stored(_, x) => x
    case One(only) => hash(RootOf(hash, only), RootOf(hash, only))
    case Two(left, right) => hash(RootOf(hash, left), RootOf(hash, right))
  }

  /** The cursor once the tree has been read. */
  function Past(p: Proof, c: Cursor): Cursor {
    Cursor(c.bits + |Flags(p)|, c.hashes + |Stores(p)|, c.matches + Picks(p), c.bad)
  }

  /** The lists spell out the tree from the cursor on. */
  ghost predicate Spelled(p: Proof, vBits: seq<bool>, vHash: seq<nat>, c: Cursor) {
    Ahead(vBits, c.bits, Flags(p)) && Ahead(vHash, c.hashes, Stores(p))
  }

  lemma SpelledTwo(p: Proof, vBits: seq<bool>, vHash: seq<nat>, c: Cursor)
    requires p.Two?
    ensures
      var c1 := c.(bits := c.bits + 1);
      Spelled(p, vBits, vHash, c)
      <==> && c.bits < |vBits| && vBits[c.bits]
           && Spelled(p.left, vBits, vHash, c1) && Spelled(p.right, vBits, vHash, Past(p.left, c1))
  {
    hide Picks;
    AheadJoin(vBits, c.bits, [true], Flags(p.left) + Flags(p.right));
    AheadJoin(vBits, c.bits + 1, Flags(p.left), Flags(p.right));
    AheadJoin(vHash, c.hashes, Stores(p.left), Stores(p.right));
    AheadOne(vBits, c.bits, true);
  }

  lemma SpelledOne(p: Proof, vBits: seq<bool>, vHash: seq<nat>, c: Cursor)
    requires p.One?
    ensures
      Spelled(p, vBits, vHash, c)
      <==> c.bits < |vBits| && vBits[c.bits] && Spelled(p.only, vBits, vHash, c.(bits := c.bits + 1))
  {
    AheadJoin(vBits, c.bits, [true], Flags(p.only));
    AheadOne(vBits, c.bits, true);
  }

  lemma SpelledStored(p: Proof, vBits: seq<bool>, vHash: seq<nat>, c: Cursor)
    requires p.Stored?
    ensures
      Spelled(p, vBits, vHash, c)
      <==> c.bits < |vBits| && vBits[c.bits] == p.flag && c.hashes < |vHash| && vHash[c.hashes] == p.hash
  {
    AheadOne(vBits, c.bits, p.flag);
    AheadOne(vHash, c.hashes, p.hash);
  }

  lemma AheadOne<T>(whole: seq<T>, from: nat, x: T)
    ensures Ahead(whole, from, [x]) <==> from < |whole| && whole[from] == x
  {
    if from < |whole| {
      assert whole[from..from + 1] == [whole[from]];
    }
  }

  lemma AheadJoin<T>(whole: seq<T>, from: nat, a: seq<T>, b: seq<T>)
    ensures Ahead(whole, from, a + b) <==> Ahead(whole, from, a) && Ahead(whole, from + |a|, b)
  {
    if Ahead(whole, from, a + b) {
      AheadSplit(whole, from, a, b);
    }
    if Ahead(whole, from, a) && Ahead(whole, from + |a|, b) {
      assert whole[from..from + |a + b|] == whole[from..from + |a|] + whole[from + |a|..from + |a| + |b|];
    }
  }

  // ----- reading -----

  lemma PastTwo(p: Proof, c: Cursor)
    requires p.Two?
    ensures Past(p, c) == Past(p.right, Past(p.left, c.(bits := c.bits + 1)))
  {
    assert c.matches + (Picks(p.left) + Picks(p.right)) == c.matches + Picks(p.left) + Picks(p.right);
  }

  /** Reading a tree that is spelled out gives its root and its picks, and ends just past it. */
  lemma {:induction false} ReadsProof(hash: NodeHash, p: Proof, n: nat, vBits: seq<bool>, vHash: seq<nat>, h: nat,
          pos: nat, c: Cursor)
    requires Fits(p, n, h, pos) && Spelled(p, vBits, vHash, c)
    ensures Extract(hash, n, vBits, vHash, h, pos, c) == (RootOf(hash, p), Past(p, c))
    decreases h
  {
    hide Width, Spelled, Flags, Stores, Extract;
    match p {
      case Stored(flag, x) =>
        SpelledStored(p, vBits, vHash, c);
        ReadsStored(hash, p, n, vBits, vHash, h, pos, c);
      case One(only) =>
        SpelledOne(p, vBits, vHash, c);
        ReadsProof(hash, only, n, vBits, vHash, h - 1, 2 * pos, c.(bits := c.bits + 1));
        ExtractUnfolds(hash, n, vBits, vHash, h, pos, c);
        PastOne(p, c);
      case Two(left, right) =>
        SpelledTwo(p, vBits, vHash, c);
        ReadsProof(hash, left, n, vBits, vHash, h - 1, 2 * pos, c.(bits := c.bits + 1));
        ReadsProof(hash, right, n, vBits, vHash, h - 1, 2 * pos + 1, Past(left, c.(bits := c.bits + 1)));
        ExtractUnfolds(hash, n, vBits, vHash, h, pos, c);
        PastTwo(p, c);
    }
  }

  lemma PastOne(p: Proof, c: Cursor)
    requires p.One?
    ensures Past(p, c) == Past(p.only, c.(bits := c.bits + 1))
  {
  }

  lemma ReadsStored(hash: NodeHash, p: Proof, n: nat, vBits: seq<bool>, vHash: seq<nat>, h: nat, pos: nat, c: Cursor)
    requires p.Stored? && (p.flag ==> h == 0)
    requires c.bits < |vBits| && vBits[c.bits] == p.flag && c.hashes < |vHash| && vHash[c.hashes] == p.hash
    ensures Extract(hash, n, vBits, vHash, h, pos, c) == (RootOf(hash, p), Past(p, c))
  {
    hide Width;
    assert c.matches + [] == c.matches;
  }

  /** Whatever is read without running out spells out a tree. */
  lemma {:induction false} ReadIsProof(hash: NodeHash, n: nat, vBits: seq<bool>, vHash: seq<nat>, h: nat, pos: nat,
          c: Cursor)
    returns (p: Proof)
    requires !Extract(hash, n, vBits, vHash, h, pos, c).1.bad
    ensures Fits(p, n, h, pos) && Spelled(p, vBits, vHash, c)
    decreases h
  {
    hide Width, Spelled, Flags, Stores, Extract;
    BitsRemain(hash, n, vBits, vHash, h, pos, c);
    var c1 := c.(bits := c.bits + 1);
    if h == 0 || !vBits[c.bits] {
      HashesRemain(hash, n, vBits, vHash, h, pos, c);
      p := Stored(vBits[c.bits], vHash[c.hashes]);
      SpelledStored(p, vBits, vHash, c);
    } else {
      ExtractUnfolds(hash, n, vBits, vHash, h, pos, c);
      var l := Extract(hash, n, vBits, vHash, h - 1, 2 * pos, c1);
      if 2 * pos + 1 < Width(n, h - 1) {
        if l.1.bad {
          BadStays(hash, n, vBits, vHash, h - 1, 2 * pos + 1, l.1);
        }
        var left := ReadIsProof(hash, n, vBits, vHash, h - 1, 2 * pos, c1);
        ReadsProof(hash, left, n, vBits, vHash, h - 1, 2 * pos, c1);
        var right := ReadIsProof(hash, n, vBits, vHash, h - 1, 2 * pos + 1, l.1);
        p := Two(left, right);
        SpelledTwo(p, vBits, vHash, c);
      } else {
        var only := ReadIsProof(hash, n, vBits, vHash, h - 1, 2 * pos, c1);
        p := One(only);
        SpelledOne(p, vBits, vHash, c);
      }
    }
  }

  lemma HashesRemain(hash: NodeHash, n: nat, vBits: seq<bool>, vHash: seq<nat>, h: nat, pos: nat, c: Cursor)
    requires !Extract(hash, n, vBits, vHash, h, pos, c).1.bad && c.bits < |vBits| && (h == 0 || !vBits[c.bits])
    ensures c.hashes < |vHash|
  {
  }

  // ----- what is accepted -----

  lemma {:induction false} ProofSize(p: Proof, n: nat, h: nat, pos: nat)
    requires pos < Width(n, h) && Fits(p, n, h, pos)
    ensures |Stores(p)| <= |Flags(p)| && |Stores(p)| <= Hi(n, h, pos) - Lo(h, pos)
    decreases h
  {
    hide Width, Lo, Hi;
    NodeHasLeaf(n, h, pos);
    match p {
      case Stored(_, _) =>
      case One(only) =>
        Halves(n, h, pos);
        ProofSize(only, n, h - 1, 2 * pos);
      case Two(left, right) =>
        Halves(n, h, pos);
        ProofSize(left, n, h - 1, 2 * pos);
        ProofSize(right, n, h - 1, 2 * pos + 1);
    }
  }

  /** The hashes are those of the tree, and the bits are its flags and no more than fill up their last byte. */
  ghost predicate Encodes(p: Proof, vBits: seq<bool>, vHash: seq<nat>) {
    && vHash == Stores(p)
    && Flags(p) <= vBits && |vBits| <= 8 * ((|Flags(p)| + 7) / 8)
  }

  /** Every encoding of a tree for a block of a possible size is accepted, with its root and its picks. */
  lemma EncodingAccepted(hash: NodeHash, p: Proof, n: nat, vBits: seq<bool>, vHash: seq<nat>, height: nat)
    requires 0 < n <= 33333 && IsHeight(n, height) && Fits(p, n, height, 0) && Encodes(p, vBits, vHash)
    ensures ExtractMatches(hash, n, vBits, vHash, height, false) == (RootOf(hash, p), Picks(p))
  {
    hide Width, Lo, Hi, Extract, IsHeight, Flags, Stores;
    RootCovers(n, height);
    ProofSize(p, n, height, 0);
    assert vBits[0..|Flags(p)|] == Flags(p) && vHash[0..|Stores(p)|] == Stores(p);
    ReadsProof(hash, p, n, vBits, vHash, height, 0, Start(false));
    assert [] + Picks(p) == Picks(p);
  }

  /**
   Exactly what is accepted: for a block of one up to 33333 transactions and an object that is not marked bad,
   the data gives the root of some tree it encodes; anything else, with hashes or bytes missing or left over,
   gives the null hash.
   */
  lemma AcceptedIff(hash: NodeHash, n: nat, vBits: seq<bool>, vHash: seq<nat>, height: nat, bad: bool)
    requires IsHeight(n, height)
    ensures
      var r := ExtractMatches(hash, n, vBits, vHash, height, bad);
      if 0 < n <= 33333 && !bad && exists p :: Fits(p, n, height, 0) && Encodes(p, vBits, vHash)
      then exists p :: Fits(p, n, height, 0) && Encodes(p, vBits, vHash) && r == (RootOf(hash, p), Picks(p))
      else r.0 == 0
  {
    hide Width, Lo, Hi, Extract, IsHeight, Flags, Stores, Fits;
    if bad {
      BadStays(hash, n, vBits, vHash, height, 0, Start(bad));
    } else if 0 < n <= 33333 {
      if p :| Fits(p, n, height, 0) && Encodes(p, vBits, vHash) {
        EncodingAccepted(hash, p, n, vBits, vHash, height);
      } else {
        var r := Extract(hash, n, vBits, vHash, height, 0, Start(false));
        if !r.1.bad {
          var p := ReadIsProof(hash, n, vBits, vHash, height, 0, Start(false));
          ReadsProof(hash, p, n, vBits, vHash, height, 0, Start(false));
          NotAllRead(p, vBits, vHash);
        }
      }
    }
  }

  lemma NotAllRead(p: Proof, vBits: seq<bool>, vHash: seq<nat>)
    requires Spelled(p, vBits, vHash, Start(false)) && !Encodes(p, vBits, vHash)
    ensures (|Flags(p)| + 7) / 8 != (|vBits| + 7) / 8 || |Stores(p)| != |vHash|
  {
    hide Flags, Stores;
    if |Stores(p)| == |vHash| {
      assert vHash == vHash[0..|vHash|] == Stores(p);
      assert Flags(p) == vBits[..|Flags(p)|];
    }
  }

  /** The data determines the tree. */
  lemma {:induction false} EncodesOne(p: Proof, q: Proof, n: nat, h: nat, pos: nat, vBits: seq<bool>,
          vHash: seq<nat>, c: Cursor)
    requires Fits(p, n, h, pos) && Fits(q, n, h, pos) && Spelled(p, vBits, vHash, c) && Spelled(q, vBits, vHash, c)
    ensures p == q
    decreases h
  {
    hide Width, Spelled, Flags, Stores;
    var c1 := c.(bits := c.bits + 1);
    match p {
      case Stored(_, _) => SpelledStored(p, vBits, vHash, c);
      case One(only) => SpelledOne(p, vBits, vHash, c);
      case Two(left, right) => SpelledTwo(p, vBits, vHash, c);
    }
    match q {
      case Stored(_, _) => SpelledStored(q, vBits, vHash, c);
      case One(only) => SpelledOne(q, vBits, vHash, c);
      case Two(left, right) => SpelledTwo(q, vBits, vHash, c);
    }
    if p.One? && q.One? {
      EncodesOne(p.only, q.only, n, h - 1, 2 * pos, vBits, vHash, c1);
    } else if p.Two? && q.Two? {
      EncodesOne(p.left, q.left, n, h - 1, 2 * pos, vBits, vHash, c1);
      EncodesOne(p.right, q.right, n, h - 1, 2 * pos + 1, vBits, vHash, Past(p.left, c1));
    }
  }
}
