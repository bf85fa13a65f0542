/**
 Transaction selection for a block template, `addPackageTxs` of `src/blockassembler.cpp`, as values.

 The mempool is a finite set of transactions with exact sets of ancestors.  Everything fees decide (which
 modified entry is best, whether it beats the next mempool entry, whether the package pays too little) is
 left open, as is the order of equal ancestor counts: an iteration takes these as a `Choice`, and the
 results hold for every choice.
 */
module AssemblerSpec {
  import opened Sets

  datatype Tx = Tx(size: nat, sigops: nat, shielded: bool, isFinal: bool)

  /** Adjusted package statistics of a transaction some of whose ancestors are in the block. */
  datatype Mod = Mod(size: int, sigops: int)

  /**
   `anc` gives each transaction's in-mempool ancestors, itself excluded; `cached` the totals over a
   transaction and its ancestors that the mempool keeps.
   */
  datatype Mempool = Mempool(txs: map<nat, Tx>, anc: map<nat, set<nat>>, cached: map<nat, Mod>) {

    /** Ancestors are mempool transactions, and closed under taking ancestors. */
    ghost predicate GraphOk() {
      && anc.Keys == txs.Keys
      && (forall x | x in anc :: x !in anc[x] && anc[x] <= txs.Keys)
      && (forall x, y | x in anc && y in anc[x] :: y in anc && anc[y] <= anc[x])
    }

    /** The cached totals are exact. */
    ghost predicate CachedOk() {
      && cached.Keys == txs.Keys
      && (forall x | x in cached :: cached[x] == Mod(Sizes(Anc(x) + {x}), SigOpsOf(Anc(x) + {x})))
    }

    ghost predicate Ok() {
      GraphOk() && CachedOk()
    }

    function Size(x: nat): nat { if x in txs then txs[x].size else 0 }

    function SigOps(x: nat): nat { if x in txs then txs[x].sigops else 0 }

    function Anc(x: nat): set<nat> { if x in anc then anc[x] else {} }

    /** A transaction's count "with ancestors" includes itself. */
    function CountWithAncestors(x: nat): nat { |Anc(x)| + 1 }

    ghost function Sizes(s: set<nat>): nat { Sum(s, x => Size(x)) }

    ghost function SigOpsOf(s: set<nat>): nat { Sum(s, x => SigOps(x)) }

    predicate Shielded(x: nat) { x in txs && txs[x].shielded }

    function ShieldedSize(x: nat): nat { if Shielded(x) then Size(x) else 0 }

    ghost function ShieldedSizes(s: set<nat>): nat { Sum(s, x => ShieldedSize(x)) }
  }

  const MAX_BLOCK_SHIELDED_TXES_SIZE: nat := 750000
  const MAX_BLOCK_SIGOPS: nat := 40000

  datatype Config = Config(maxSize: nat, sapling_maintenance: bool)

  datatype Asm = Asm(
    inBlock: set<nat>,
    block: seq<nat>,
    nSize: nat,
    nSigOps: nat,
    nSizeShielded: nat,
    modified: map<nat, Mod>,
    failed: set<nat>,
    mi: nat
  )

  /** A reset block reserves space for the coinbase. */
  const Reset := Asm({}, [], 1000, 100, 0, map[], {}, 0)

  datatype Choice = Choice(best: nat, bestWins: bool, tooCheap: bool, sorted: seq<nat>)

  datatype Outcome = Stopped | Continue(next: Asm)

  // ----- the pieces of an iteration -----

  predicate Skip(s: Asm, x: nat) {
    x in s.modified || x in s.inBlock || x in s.failed
  }

  predicate UsesModified(order: seq<nat>, s: Asm, ch: Choice) {
    s.mi >= |order| || (s.modified != map[] && ch.bestWins)
  }

  /** The transaction an iteration evaluates. */
  function Target(order: seq<nat>, s: Asm, ch: Choice): nat {
    if s.mi >= |order| || (s.modified != map[] && ch.bestWins) then ch.best else order[s.mi]
  }

  function Cached(mp: Mempool, x: nat): Mod {
    if x in mp.cached then mp.cached[x] else Mod(0, 0)
  }

  function PackageStats(mp: Mempool, order: seq<nat>, s: Asm, ch: Choice): Mod {
    var x := Target(order, s, ch);
    if UsesModified(order, s, ch) && x in s.modified then s.modified[x] else Cached(mp, x)
  }

  /** A sum below zero, which a package counted down too often can give, wraps around to far above the limits. */
  predicate TestPackage(cfg: Config, s: Asm, m: Mod) {
    0 <= s.nSize + m.size < cfg.maxSize && 0 <= s.nSigOps + m.sigops < MAX_BLOCK_SIGOPS
  }

  /** The transaction and its ancestors that are not in the block yet. */
  function Package(mp: Mempool, s: Asm, x: nat): set<nat> {
    mp.Anc(x) - s.inBlock + {x}
  }

  predicate AllFinal(mp: Mempool, p: set<nat>) {
    forall x | x in p :: x in mp.txs ==> mp.txs[x].isFinal
  }

  /** A package listed by ascending ancestor count. */
  predicate SortedPackage(mp: Mempool, p: set<nat>, q: seq<nat>) {
    && AsSet(q) == p && Distinct(q)
    && forall i, j | 0 <= i < j < |q| :: mp.CountWithAncestors(q[i]) <= mp.CountWithAncestors(q[j])
  }

  /** The space and maintenance tests a shielded transaction must pass. */
  predicate Blocked(mp: Mempool, cfg: Config, s: Asm, x: nat) {
    && mp.Shielded(x)
    && (cfg.sapling_maintenance || s.nSizeShielded + mp.Size(x) > MAX_BLOCK_SHIELDED_TXES_SIZE)
  }

  function AddToBlock(mp: Mempool, s: Asm, x: nat): Asm {
    s.(inBlock := s.inBlock + {x},
       block := s.block + [x],
       nSize := s.nSize + mp.Size(x),
       nSigOps := s.nSigOps + mp.SigOps(x),
       nSizeShielded := s.nSizeShielded + mp.ShieldedSize(x),
       modified := s.modified - {x})
  }

  /** Adds a sorted package one by one, giving up at the first blocked shielded transaction. */
  function AddSorted(mp: Mempool, cfg: Config, s: Asm, q: seq<nat>): Asm
    decreases |q|
  {
    if q == [] || Blocked(mp, cfg, s, q[0]) then s
    else AddSorted(mp, cfg, AddToBlock(mp, s, q[0]), q[1..])
  }

  /** What a modified entry starts from when it is first or again created. */
  function Base(mp: Mempool, modified: map<nat, Mod>, x: nat): Mod {
    if x in modified then modified[x] else Cached(mp, x)
  }

  ghost function Reduced(mp: Mempool, m: Mod, hit: set<nat>): Mod {
    Mod(m.size - mp.Sizes(hit), m.sigops - mp.SigOpsOf(hit))
  }

  /** Every descendant of the package, outside it, is charged less by the package members it descends from. */
  ghost function UpdatePackages(mp: Mempool, modified: map<nat, Mod>, p: set<nat>): map<nat, Mod> {
    map d | d in mp.txs.Keys + modified.Keys && (d in modified || (d !in p && mp.Anc(d) * p != {})) ::
      if d !in p && d in mp.txs && mp.Anc(d) * p != {} then Reduced(mp, Base(mp, modified, d), mp.Anc(d) * p)
          else modified[d]
  }

  /** The choices the code can make: a best entry exists, and the listing is a sorted package. */
  ghost predicate ChoiceOk(mp: Mempool, order: seq<nat>, s: Asm, ch: Choice) {
    && (UsesModified(order, s, ch) ==> ch.best in s.modified)
    && SortedPackage(mp, Package(mp, s, Target(order, s, ch)), ch.sorted)
  }

  predicate Finished(order: seq<nat>, s: Asm) {
    s.mi >= |order| && s.modified == map[]
  }

  function GiveUpOn(order: seq<nat>, s: Asm, ch: Choice): Asm {
    var x := Target(order, s, ch);
    if UsesModified(order, s, ch) then s.(modified := s.modified - {x}, failed := s.failed + {x})
    else s.(mi := s.mi + 1)
  }

  ghost function IncludePackage(mp: Mempool, cfg: Config, s: Asm, x: nat, q: seq<nat>): Asm {
    var t := AddSorted(mp, cfg, s, q);
    t.(modified := UpdatePackages(mp, t.modified, Package(mp, s, x)))
  }

  function Advance(order: seq<nat>, s: Asm, ch: Choice): Asm {
    if UsesModified(order, s, ch) then s else s.(mi := s.mi + 1)
  }

  ghost function Include(mp: Mempool, cfg: Config, order: seq<nat>, s: Asm, ch: Choice): Asm {
    IncludePackage(mp, cfg, Advance(order, s, ch), Target(order, s, ch), ch.sorted)
  }

  /** One iteration of the selection loop. */
  ghost function Iterate(mp: Mempool, cfg: Config, order: seq<nat>, s: Asm, ch: Choice): Outcome {
    if Finished(order, s) then Stopped
    else if s.mi < |order| && Skip(s, order[s.mi]) then Continue(s.(mi := s.mi + 1))
    else if ch.tooCheap then Stopped
    else if !TestPackage(cfg, s, PackageStats(mp, order, s, ch))
            || !AllFinal(mp, Package(mp, s, Target(order, s, ch)))
    then Continue(GiveUpOn(order, s, ch))
    else Continue(Include(mp, cfg, order, s, ch))
  }

  // ----- order in the block -----

  /** Every transaction of the block comes once and after all its ancestors. */
  ghost predicate BlockOk(mp: Mempool, s: Asm) {
    && AsSet(s.block) == s.inBlock && Distinct(s.block) && s.inBlock <= mp.txs.Keys
    && (forall i | 0 <= i < |s.block| :: mp.Anc(s.block[i]) <= AsSet(s.block[..i]))
    && (forall x | x in s.inBlock :: mp.Anc(x) <= s.inBlock)
  }

  /** The table of modified entries holds mempool transactions that are not in the block. */
  ghost predicate ModifiedOk(mp: Mempool, s: Asm) {
    s.modified.Keys <= mp.txs.Keys && s.modified.Keys !! s.inBlock
  }

  ghost predicate Inv(mp: Mempool, order: seq<nat>, s: Asm) {
    mp.GraphOk() && AsSet(order) == mp.txs.Keys && BlockOk(mp, s) && ModifiedOk(mp, s) && s.mi <= |order|
  }

  lemma ResetHoldsInv(mp: Mempool, order: seq<nat>)
    requires mp.GraphOk() && AsSet(order) == mp.txs.Keys
    ensures Inv(mp, order, Reset)
  {
  }

  lemma FewerAncestors(mp: Mempool, x: nat, y: nat)
    requires mp.GraphOk() && x in mp.txs && y in mp.Anc(x)
    ensures mp.CountWithAncestors(y) < mp.CountWithAncestors(x)
  {
    SubsetSize(mp.anc[y], mp.anc[x]);
  }

  lemma AddOneSpec(mp: Mempool, s: Asm, x: nat)
    requires BlockOk(mp, s) && x in mp.txs && x !in s.inBlock && mp.Anc(x) <= s.inBlock
    ensures BlockOk(mp, AddToBlock(mp, s, x))
  {
    var t := AddToBlock(mp, s, x);
    AsSetAppend(s.block, x);
    forall i | 0 <= i < |t.block| ensures mp.Anc(t.block[i]) <= AsSet(t.block[..i]) {
      if i < |s.block| {
        assert t.block[..i] == s.block[..i];
      } else {
        assert t.block[..i] == s.block;
      }
    }
  }

  /** The rest of a sorted package can still be added: ancestors come first. */
  ghost predicate Addable(mp: Mempool, s: Asm, q: seq<nat>) {
    && Distinct(q)
    && forall i | 0 <= i < |q| ::
         q[i] in mp.txs && q[i] !in s.inBlock && mp.Anc(q[i]) <= s.inBlock + AsSet(q[..i])
  }

  lemma AddableNext(mp: Mempool, s: Asm, q: seq<nat>)
    requires Addable(mp, s, q) && q != []
    ensures mp.Anc(q[0]) <= s.inBlock
    ensures Addable(mp, AddToBlock(mp, s, q[0]), q[1..])
  {
    assert mp.Anc(q[0]) <= s.inBlock + AsSet(q[..0]);
    var t, r := AddToBlock(mp, s, q[0]), q[1..];
    forall i | 0 <= i < |r| ensures r[i] in mp.txs && r[i] !in t.inBlock && mp.Anc(r[i]) <= t.inBlock + AsSet(r[..i]) {
      assert q[i + 1] == r[i] && q[..i + 1] == [q[0]] + r[..i];
      assert mp.Anc(q[i + 1]) <= s.inBlock + AsSet(q[..i + 1]);
    }
  }

  lemma AddableFirst(mp: Mempool, s: Asm, q: seq<nat>)
    requires Addable(mp, s, q) && q != []
    ensures q[0] in mp.txs && q[0] !in s.inBlock
  {
  }

  lemma AsSetCons(q: seq<nat>)
    requires q != []
    ensures AsSet(q) == {q[0]} + AsSet(q[1..])
  {
    assert q == [q[0]] + q[1..];
  }

  /** A sorted package of a transaction outside the block is addable. */
  lemma SortedIsAddable(mp: Mempool, s: Asm, x: nat, q: seq<nat>)
    requires mp.GraphOk() && BlockOk(mp, s) && x in mp.txs && x !in s.inBlock && SortedPackage(mp, Package(mp, s, x), q)
    ensures Addable(mp, s, q)
  {
    forall i | 0 <= i < |q| ensures q[i] in mp.txs && q[i] !in s.inBlock && mp.Anc(q[i]) <= s.inBlock + AsSet(q[..i]) {
      assert q[i] in Package(mp, s, x);
      forall y | y in mp.Anc(q[i]) && y !in s.inBlock ensures y in AsSet(q[..i]) {
        assert y in Package(mp, s, x);
        assert y in AsSet(q);
        var j :| 0 <= j < |q| && q[j] == y;
        FewerAncestors(mp, q[i], y);
        assert j < i;
        assert q[..i][j] == y;
      }
    }
  }

  /** Adding an addable list, in part or in full, keeps the block ordered and only moves transactions into it. */
  lemma {:induction false} AddSortedSpec(mp: Mempool, cfg: Config, s: Asm, q: seq<nat>)
    requires BlockOk(mp, s) && Addable(mp, s, q)
    ensures var t := AddSorted(mp, cfg, s, q);
            && BlockOk(mp, t)
            && s.inBlock <= t.inBlock <= s.inBlock + AsSet(q)
            && t.modified == s.modified - (t.inBlock - s.inBlock)
            && t.failed == s.failed && t.mi == s.mi
            && s.block <= t.block
    decreases |q|
  {
    hide BlockOk, Addable, Blocked;
    if q == [] || Blocked(mp, cfg, s, q[0]) {
      assert s.modified - {} == s.modified;
    } else {
      AddableFirst(mp, s, q);
      AddableNext(mp, s, q);
      AddOneSpec(mp, s, q[0]);
      var u := AddToBlock(mp, s, q[0]);
      AddSortedSpec(mp, cfg, u, q[1..]);
      var t := AddSorted(mp, cfg, u, q[1..]);
      AsSetCons(q);
      assert t.inBlock - s.inBlock == (t.inBlock - u.inBlock) + {q[0]};
      assert (s.modified - {q[0]}) - (t.inBlock - u.inBlock) == s.modified - (t.inBlock - s.inBlock);
    }
  }

  /** Updating for a package never brings a transaction of the block into the table. */
  lemma UpdateKeepsModified(mp: Mempool, t: Asm, p: set<nat>, before: set<nat>)
    requires mp.GraphOk() && BlockOk(mp, t) && ModifiedOk(mp, t)
    requires p !! before && t.inBlock <= before + p && (forall x | x in before :: mp.Anc(x) <= before)
    ensures ModifiedOk(mp, t.(modified := UpdatePackages(mp, t.modified, p)))
  {
    var m := UpdatePackages(mp, t.modified, p);
    forall d | d in m ensures d in mp.txs && d !in t.inBlock {
      assert d in before ==> mp.Anc(d) <= before;
    }
  }

  lemma TargetIsOutside(mp: Mempool, order: seq<nat>, s: Asm, ch: Choice)
    requires Inv(mp, order, s) && ChoiceOk(mp, order, s, ch)
    requires s.mi < |order| ==> !Skip(s, order[s.mi])
    ensures var x := Target(order, s, ch); x in mp.txs && x !in s.inBlock
  {
    if !UsesModified(order, s, ch) {
      assert order[s.mi] in AsSet(order);
    }
  }

  /**
   Every iteration, whatever the choices and even when a package is cut short at a shielded transaction,
   keeps the block in order with each transaction once and keeps the modified table apart from it; the
   block only grows at its end.
   */
  lemma IterateKeepsInv(mp: Mempool, cfg: Config, order: seq<nat>, s: Asm, ch: Choice)
    requires Inv(mp, order, s) && ChoiceOk(mp, order, s, ch)
    ensures var r := Iterate(mp, cfg, order, s, ch);
            r.Continue? ==> Inv(mp, order, r.next) && s.block <= r.next.block
  {
    hide mp.GraphOk, SortedPackage, Include;
    if !(s.mi < |order| && Skip(s, order[s.mi])) && !Finished(order, s) {
      TargetIsOutside(mp, order, s, ch);
      IncludeKeepsInv(mp, cfg, order, s, ch);
    }
  }

  lemma BlockIsClosed(mp: Mempool, s: Asm)
    requires BlockOk(mp, s)
    ensures forall x | x in s.inBlock :: mp.Anc(x) <= s.inBlock
  {
  }

  lemma SortedSet(mp: Mempool, p: set<nat>, q: seq<nat>)
    requires SortedPackage(mp, p, q)
    ensures AsSet(q) == p
  {
  }

  lemma AddingKeepsModified(mp: Mempool, s: Asm, t: Asm)
    requires ModifiedOk(mp, s) && s.inBlock <= t.inBlock && t.modified == s.modified - (t.inBlock - s.inBlock)
    ensures ModifiedOk(mp, t)
  {
  }

  lemma BlockMoves(mp: Mempool, s: Asm, t: Asm)
    requires BlockOk(mp, s) && t.block == s.block && t.inBlock == s.inBlock
    ensures BlockOk(mp, t)
  {
  }

  lemma ModifiedMoves(mp: Mempool, s: Asm, t: Asm)
    requires ModifiedOk(mp, s) && t.modified == s.modified && t.inBlock == s.inBlock
    ensures ModifiedOk(mp, t)
  {
  }

  lemma IncludePackageSpec(mp: Mempool, cfg: Config, s: Asm, x: nat, q: seq<nat>)
    requires mp.GraphOk() && BlockOk(mp, s) && ModifiedOk(mp, s)
    requires x in mp.txs && x !in s.inBlock && SortedPackage(mp, Package(mp, s, x), q)
    ensures var r := IncludePackage(mp, cfg, s, x, q);
            && BlockOk(mp, r) && ModifiedOk(mp, r)
            && s.block <= r.block && s.inBlock <= r.inBlock && r.mi == s.mi && r.failed == s.failed
  {
    hide BlockOk, Addable, AddSorted, UpdatePackages, ModifiedOk, SortedPackage;
    BlockIsClosed(mp, s);
    SortedIsAddable(mp, s, x, q);
    AddSortedSpec(mp, cfg, s, q);
    var p, t := Package(mp, s, x), AddSorted(mp, cfg, s, q);
    SortedSet(mp, p, q);
    AddingKeepsModified(mp, s, t);
    UpdateKeepsModified(mp, t, p, s.inBlock);
    BlockMoves(mp, t, t.(modified := UpdatePackages(mp, t.modified, p)));
  }

  lemma IncludeKeepsInv(mp: Mempool, cfg: Config, order: seq<nat>, s: Asm, ch: Choice)
    requires Inv(mp, order, s) && ChoiceOk(mp, order, s, ch)
    requires var x := Target(order, s, ch); x in mp.txs && x !in s.inBlock
    ensures Inv(mp, order, Include(mp, cfg, order, s, ch))
    ensures s.block <= Include(mp, cfg, order, s, ch).block
  {
    hide mp.GraphOk, BlockOk, ModifiedOk, SortedPackage, IncludePackage;
    var u := Advance(order, s, ch);
    BlockMoves(mp, s, u);
    ModifiedMoves(mp, s, u);
    IncludePackageSpec(mp, cfg, u, Target(order, s, ch), ch.sorted);
  }

  // ----- size and signature-operation limits -----

  /** No shielded transaction is ever turned away: there are none during maintenance, and all have room. */
  ghost predicate ShieldedFit(mp: Mempool, cfg: Config) {
    && (cfg.sapling_maintenance ==> forall x | x in mp.txs :: !mp.Shielded(x))
    && mp.ShieldedSizes(mp.txs.Keys) <= MAX_BLOCK_SHIELDED_TXES_SIZE
  }

  /** The space counted for shielded transactions is what those in the block take. */
  ghost predicate ShieldedCounted(mp: Mempool, s: Asm) {
    s.nSizeShielded == mp.ShieldedSizes(s.inBlock)
  }

  /** A modified entry never understates what adding it would add. */
  ghost predicate Covers(mp: Mempool, s: Asm, x: nat, m: Mod) {
    m.size >= mp.Sizes(Package(mp, s, x)) && m.sigops >= mp.SigOpsOf(Package(mp, s, x))
  }

  ghost predicate ModifiedCover(mp: Mempool, s: Asm) {
    forall x | x in s.modified :: Covers(mp, s, x, s.modified[x])
  }

  ghost predicate WithinLimits(cfg: Config, s: Asm) {
    && (s.nSize == Reset.nSize || s.nSize < cfg.maxSize)
    && (s.nSigOps == Reset.nSigOps || s.nSigOps < MAX_BLOCK_SIGOPS)
  }

  /** What selection keeps while no descendant is charged for a transaction that was left out. */
  ghost predicate SelectionOk(mp: Mempool, cfg: Config, s: Asm) {
    ModifiedCover(mp, s) && WithinLimits(cfg, s)
  }

  lemma CachedCovers(mp: Mempool, s: Asm, x: nat)
    requires mp.CachedOk() && x in mp.txs
    ensures Covers(mp, s, x, Cached(mp, x))
  {
    SumMonotone(Package(mp, s, x), mp.Anc(x) + {x}, y => mp.Size(y));
    SumMonotone(Package(mp, s, x), mp.Anc(x) + {x}, y => mp.SigOps(y));
  }

  /** Adding a sorted list counts exactly what goes in, whether whole or cut short. */
  lemma {:induction false} AddSortedCounts(mp: Mempool, cfg: Config, s: Asm, q: seq<nat>)
    requires Addable(mp, s, q)
    ensures var t := AddSorted(mp, cfg, s, q);
            var added := t.inBlock - s.inBlock;
            && s.inBlock <= t.inBlock && added <= AsSet(q)
            && t.nSize == s.nSize + mp.Sizes(added) && t.nSigOps == s.nSigOps + mp.SigOpsOf(added)
            && t.nSizeShielded == s.nSizeShielded + mp.ShieldedSizes(added)
    decreases |q|
  {
    if q == [] || Blocked(mp, cfg, s, q[0]) {
      assert s.inBlock - s.inBlock == {};
    } else {
      AddableNext(mp, s, q);
      AddableFirst(mp, s, q);
      hide Addable, Blocked;
      var u := AddToBlock(mp, s, q[0]);
      AddSortedCounts(mp, cfg, u, q[1..]);
      AsSetCons(q);
      var t := AddSorted(mp, cfg, u, q[1..]);
      var rest := t.inBlock - u.inBlock;
      assert t.inBlock - s.inBlock == rest + {q[0]};
      SumAdd(rest, x => mp.Size(x), q[0]);
      SumAdd(rest, x => mp.SigOps(x), q[0]);
      SumAdd(rest, x => mp.ShieldedSize(x), q[0]);
    }
  }

  /** Nothing of the package is turned away: it has no shielded transaction, or all of them have room. */
  ghost predicate RoomFor(mp: Mempool, cfg: Config, s: Asm, p: set<nat>) {
    || (forall x | x in p :: !mp.Shielded(x))
    || (!cfg.sapling_maintenance && s.nSizeShielded + mp.ShieldedSizes(p) <= MAX_BLOCK_SHIELDED_TXES_SIZE)
  }

  lemma {:induction false} NoShieldedSize(mp: Mempool, p: set<nat>)
    requires forall x | x in p :: !mp.Shielded(x)
    ensures mp.ShieldedSizes(p) == 0
    decreases |p|
  {
    if p != {} {
      var x :| x in p;
      NoShieldedSize(mp, p - {x});
      SumAdd(p - {x}, y => mp.ShieldedSize(y), x);
      assert p - {x} + {x} == p;
    }
  }

  lemma RoomForBlocked(mp: Mempool, cfg: Config, s: Asm, p: set<nat>, x: nat)
    requires x in p && Blocked(mp, cfg, s, x)
    ensures !RoomFor(mp, cfg, s, p)
  {
    SumMonotone({x}, p, y => mp.ShieldedSize(y));
    SumAdd({}, y => mp.ShieldedSize(y), x);
    assert {} + {x} == {x};
  }

  lemma RoomForNext(mp: Mempool, cfg: Config, s: Asm, p: set<nat>, x: nat)
    requires x !in p && !Blocked(mp, cfg, s, x)
    ensures RoomFor(mp, cfg, s, p + {x}) <==> RoomFor(mp, cfg, AddToBlock(mp, s, x), p)
  {
    SumAdd(p, y => mp.ShieldedSize(y), x);
    if forall y | y in p :: !mp.Shielded(y) {
      NoShieldedSize(mp, p);
    }
  }

  /** A sorted list goes in whole if and only if nothing of it is turned away. */
  lemma {:induction false} AddSortedWholeIff(mp: Mempool, cfg: Config, s: Asm, q: seq<nat>)
    requires Addable(mp, s, q)
    ensures AddSorted(mp, cfg, s, q).inBlock == s.inBlock + AsSet(q) <==> RoomFor(mp, cfg, s, AsSet(q))
    decreases |q|
  {
    if q == [] {
      AsSetEmpty();
    } else {
      AsSetCons(q);
      AddableFirst(mp, s, q);
      AddableNext(mp, s, q);
      assert q[0] !in AsSet(q[1..]) by {
        assert Distinct(q);
      }
      hide Addable, Blocked, RoomFor, AsSet;
      if Blocked(mp, cfg, s, q[0]) {
        RoomForBlocked(mp, cfg, s, AsSet(q), q[0]);
      } else {
        var rest := AsSet(q[1..]);
        RoomForNext(mp, cfg, s, rest, q[0]);
        AddSortedWholeIff(mp, cfg, AddToBlock(mp, s, q[0]), q[1..]);
        assert AsSet(q) == rest + {q[0]};
        assert s.inBlock + {q[0]} + rest == s.inBlock + AsSet(q);
      }
    }
  }

  /** What of a transaction's package goes in, and what it adds. */
  lemma PackageGoesIn(mp: Mempool, cfg: Config, s: Asm, x: nat, q: seq<nat>)
    requires mp.GraphOk() && BlockOk(mp, s)
    requires x in mp.txs && x !in s.inBlock && SortedPackage(mp, Package(mp, s, x), q)
    ensures var p, t := Package(mp, s, x), AddSorted(mp, cfg, s, q);
            var added := t.inBlock - s.inBlock;
            && s.inBlock <= t.inBlock && added <= p && t.modified == s.modified - added
            && t.nSize == s.nSize + mp.Sizes(added) && t.nSigOps == s.nSigOps + mp.SigOpsOf(added)
            && t.nSizeShielded == s.nSizeShielded + mp.ShieldedSizes(added)
            && (t.inBlock == s.inBlock + p <==> RoomFor(mp, cfg, s, p))
  {
    hide BlockOk, Addable, AddSorted, mp.GraphOk, mp.Sizes, mp.SigOpsOf, mp.ShieldedSizes, SortedPackage, RoomFor;
    SortedIsAddable(mp, s, x, q);
    AddSortedSpec(mp, cfg, s, q);
    AddSortedCounts(mp, cfg, s, q);
    AddSortedWholeIff(mp, cfg, s, q);
    SortedSet(mp, Package(mp, s, x), q);
  }

  /** A package whose figures are not understated stays within the limits, cut short or not, in every mempool. */
  lemma IncludeWithinLimits(mp: Mempool, cfg: Config, s: Asm, x: nat, q: seq<nat>, m: Mod)
    requires mp.GraphOk() && BlockOk(mp, s) && WithinLimits(cfg, s)
    requires x in mp.txs && x !in s.inBlock && SortedPackage(mp, Package(mp, s, x), q)
    requires Covers(mp, s, x, m) && TestPackage(cfg, s, m)
    ensures WithinLimits(cfg, IncludePackage(mp, cfg, s, x, q))
  {
    PackageGoesIn(mp, cfg, s, x, q);
    var p := Package(mp, s, x);
    var added := AddSorted(mp, cfg, s, q).inBlock - s.inBlock;
    SumMonotone(added, p, y => mp.Size(y));
    SumMonotone(added, p, y => mp.SigOps(y));
    hide BlockOk, AddSorted, UpdatePackages, mp.GraphOk, SortedPackage, Package, RoomFor;
  }

  lemma StatsCover(mp: Mempool, order: seq<nat>, s: Asm, ch: Choice)
    requires mp.CachedOk() && ModifiedCover(mp, s) && Target(order, s, ch) in mp.txs
    ensures Covers(mp, s, Target(order, s, ch), PackageStats(mp, order, s, ch))
  {
    CachedCovers(mp, s, Target(order, s, ch));
  }

  lemma CoversMoves(mp: Mempool, s: Asm, t: Asm, x: nat, m: Mod)
    requires Covers(mp, s, x, m) && t.inBlock == s.inBlock
    ensures Covers(mp, t, x, m) && Package(mp, t, x) == Package(mp, s, x)
  {
  }

  /** The iteration finds a package it includes, or at least tries to. */
  ghost predicate Accepts(mp: Mempool, cfg: Config, order: seq<nat>, s: Asm, ch: Choice) {
    && !Finished(order, s) && !(s.mi < |order| && Skip(s, order[s.mi])) && !ch.tooCheap
    && TestPackage(cfg, s, PackageStats(mp, order, s, ch)) && AllFinal(mp, Package(mp, s, Target(order, s, ch)))
  }

  /**
   Limits for one iteration, in every mempool: accumulated size and signature operations stay at their
   initial values or strictly below the limits, as long as the figures compared did not understate what
   goes in.
   */
  lemma IterateWithinLimits(mp: Mempool, cfg: Config, order: seq<nat>, s: Asm, ch: Choice)
    requires Inv(mp, order, s) && mp.CachedOk() && ChoiceOk(mp, order, s, ch)
    requires ModifiedCover(mp, s) && WithinLimits(cfg, s)
    ensures var r := Iterate(mp, cfg, order, s, ch); r.Continue? ==> WithinLimits(cfg, r.next)
  {
    hide BlockOk, ModifiedOk, ModifiedCover, mp.GraphOk, mp.CachedOk, SortedPackage, IncludePackage, Covers, AllFinal;
    if Accepts(mp, cfg, order, s, ch) {
      TargetIsOutside(mp, order, s, ch);
      StatsCover(mp, order, s, ch);
      var x, u := Target(order, s, ch), Advance(order, s, ch);
      BlockMoves(mp, s, u);
      CoversMoves(mp, s, u, x, PackageStats(mp, order, s, ch));
      IncludeWithinLimits(mp, cfg, u, x, ch.sorted, PackageStats(mp, order, s, ch));
    }
  }

  // ----- what goes in -----

  /** Everything in the block is final. */
  ghost predicate BlockFinal(mp: Mempool, s: Asm) {
    forall x | x in s.inBlock :: x in mp.txs && mp.txs[x].isFinal
  }

  lemma IncludeAdds(mp: Mempool, cfg: Config, order: seq<nat>, s: Asm, ch: Choice)
    requires Inv(mp, order, s) && ChoiceOk(mp, order, s, ch)
    requires var x := Target(order, s, ch); x in mp.txs && x !in s.inBlock
    ensures var p, r := Package(mp, s, Target(order, s, ch)), Include(mp, cfg, order, s, ch);
            && s.inBlock <= r.inBlock <= s.inBlock + p && p <= mp.txs.Keys
            && (r.inBlock == s.inBlock + p <==> RoomFor(mp, cfg, s, p))
  {
    hide BlockOk, ModifiedOk, mp.GraphOk, SortedPackage, AddSorted, RoomFor, UpdatePackages;
    var x, u := Target(order, s, ch), Advance(order, s, ch);
    BlockMoves(mp, s, u);
    PackageIsKnown(mp, s, x);
    PackageGoesIn(mp, cfg, u, x, ch.sorted);
    RoomMoves(mp, cfg, s, u, Package(mp, s, x));
  }

  lemma RoomMoves(mp: Mempool, cfg: Config, s: Asm, t: Asm, p: set<nat>)
    requires t.nSizeShielded == s.nSizeShielded
    ensures RoomFor(mp, cfg, t, p) <==> RoomFor(mp, cfg, s, p)
  {
  }

  /**
   Which transactions an iteration adds: none unless the entry is considered at all, its figures fit, and
   every transaction of its package is final; then no others, and all of them if and only if no shielded
   one is turned away.
   */
  lemma IterateAddsIff(mp: Mempool, cfg: Config, order: seq<nat>, s: Asm, ch: Choice)
    requires Inv(mp, order, s) && ChoiceOk(mp, order, s, ch) && !ch.tooCheap && !Finished(order, s)
    ensures
      var x, m := Target(order, s, ch), PackageStats(mp, order, s, ch);
      var p := Package(mp, s, x);
      var skipped := && s.mi < |order|
                     && (order[s.mi] in s.modified || order[s.mi] in s.inBlock || order[s.mi] in s.failed);
      var fits := 0 <= s.nSize + m.size < cfg.maxSize && 0 <= s.nSigOps + m.sigops < 40000;
      var final := forall y | y in p :: y in mp.txs && mp.txs[y].isFinal;
      var r := Iterate(mp, cfg, order, s, ch);
      && r.Continue? && s.inBlock <= r.next.inBlock
      && (skipped || !fits || !final ==> r.next.inBlock == s.inBlock)
      && (!skipped && fits && final ==>
            && r.next.inBlock <= s.inBlock + p
            && (r.next.inBlock == s.inBlock + p
                <==> || (forall y | y in p :: !mp.txs[y].shielded)
                     || (!cfg.sapling_maintenance && s.nSizeShielded + mp.ShieldedSizes(p) <= 750000)))
  {
    hide BlockOk, ModifiedOk, mp.GraphOk, SortedPackage, Include, RoomFor, AllFinal, Package, PackageStats;
    if !(s.mi < |order| && Skip(s, order[s.mi])) {
      TargetIsOutside(mp, order, s, ch);
      var p := Package(mp, s, Target(order, s, ch));
      IncludeAdds(mp, cfg, order, s, ch);
      AllFinalMeans(mp, p);
      RoomMeans(mp, cfg, s, p);
    }
  }

  lemma AllFinalMeans(mp: Mempool, p: set<nat>)
    requires p <= mp.txs.Keys
    ensures AllFinal(mp, p) <==> forall y | y in p :: y in mp.txs && mp.txs[y].isFinal
  {
  }

  lemma RoomMeans(mp: Mempool, cfg: Config, s: Asm, p: set<nat>)
    requires p <= mp.txs.Keys
    ensures RoomFor(mp, cfg, s, p)
            <==> || (forall y | y in p :: !mp.txs[y].shielded)
                 || (!cfg.sapling_maintenance && s.nSizeShielded + mp.ShieldedSizes(p) <= 750000)
  {
  }

  /** An iteration lets only final transactions in. */
  lemma IterateKeepsFinal(mp: Mempool, cfg: Config, order: seq<nat>, s: Asm, ch: Choice)
    requires Inv(mp, order, s) && ChoiceOk(mp, order, s, ch) && BlockFinal(mp, s)
    ensures var r := Iterate(mp, cfg, order, s, ch); r.Continue? ==> BlockFinal(mp, r.next)
  {
    hide Inv, ChoiceOk;
    if !ch.tooCheap && !Finished(order, s) {
      IterateAddsIff(mp, cfg, order, s, ch);
    }
  }

  // ----- which entries can be charged for what was left out -----

  /** The figures leave room for charging a transaction for ancestors that were left out. */
  ghost predicate CoversWith(mp: Mempool, s: Asm, d: nat, m: Mod, left: set<nat>) {
    && m.size >= mp.Sizes(Package(mp, s, d)) + mp.Sizes(mp.Anc(d) * left)
    && m.sigops >= mp.SigOpsOf(Package(mp, s, d)) + mp.SigOpsOf(mp.Anc(d) * left)
  }

  /** Every transaction outside a package that descends from it can be charged for what was left out of it. */
  ghost predicate Chargeable(mp: Mempool, s: Asm, p: set<nat>, left: set<nat>) {
    forall d | d in mp.txs && d !in p && mp.Anc(d) * p != {} :: CoversWith(mp, s, d, Base(mp, s.modified, d), left)
  }

  /** What remains of a package once part of another one is in the block, and what it is charged. */
  lemma PackageShrinks(mp: Mempool, s: Asm, t: Asm, p: set<nat>, d: nat)
    requires s.inBlock <= t.inBlock && t.inBlock - s.inBlock <= p && p !! s.inBlock && d !in p
    ensures var left, hit := p - t.inBlock, mp.Anc(d) * p;
            && mp.Sizes(Package(mp, s, d)) + mp.Sizes(mp.Anc(d) * left) == mp.Sizes(Package(mp, t, d)) + mp.Sizes(hit)
            && mp.SigOpsOf(Package(mp, s, d)) + mp.SigOpsOf(mp.Anc(d) * left)
               == mp.SigOpsOf(Package(mp, t, d)) + mp.SigOpsOf(hit)
  {
    var left, added := p - t.inBlock, t.inBlock - s.inBlock;
    assert mp.Anc(d) * p == mp.Anc(d) * left + mp.Anc(d) * added;
    assert Package(mp, s, d) == Package(mp, t, d) + mp.Anc(d) * added;
    SumDisjoint(mp.Anc(d) * left, mp.Anc(d) * added, x => mp.Size(x));
    SumDisjoint(mp.Anc(d) * left, mp.Anc(d) * added, x => mp.SigOps(x));
    SumDisjoint(Package(mp, t, d), mp.Anc(d) * added, x => mp.Size(x));
    SumDisjoint(Package(mp, t, d), mp.Anc(d) * added, x => mp.SigOps(x));
  }

  /** An entry that is charged is covered afterwards if and only if it could be charged. */
  lemma ChargedCoversIff(mp: Mempool, s: Asm, t: Asm, p: set<nat>, d: nat)
    requires s.inBlock <= t.inBlock && t.inBlock - s.inBlock <= p && p !! s.inBlock
    requires t.modified == s.modified - (t.inBlock - s.inBlock)
    requires d in mp.txs && d !in p && mp.Anc(d) * p != {}
    ensures var u := UpdatePackages(mp, t.modified, p);
            d in u && (Covers(mp, t, d, u[d]) <==> CoversWith(mp, s, d, Base(mp, s.modified, d), p - t.inBlock))
  {
    PackageShrinks(mp, s, t, p, d);
    hide mp.Sizes, mp.SigOpsOf, Package;
    assert Base(mp, t.modified, d) == Base(mp, s.modified, d);
  }

  /** An entry that is not charged stays covered. */
  lemma UnchargedCovers(mp: Mempool, s: Asm, t: Asm, p: set<nat>, d: nat)
    requires ModifiedCover(mp, s) && s.inBlock <= t.inBlock && t.modified == s.modified - (t.inBlock - s.inBlock)
    requires d in UpdatePackages(mp, t.modified, p) && !(d in mp.txs && d !in p && mp.Anc(d) * p != {})
    requires s.modified.Keys <= mp.txs.Keys
    ensures Covers(mp, t, d, UpdatePackages(mp, t.modified, p)[d])
  {
    assert d in s.modified && UpdatePackages(mp, t.modified, p)[d] == s.modified[d];
    assert Covers(mp, s, d, s.modified[d]);
    SumMonotone(Package(mp, t, d), Package(mp, s, d), x => mp.Size(x));
    SumMonotone(Package(mp, t, d), Package(mp, s, d), x => mp.SigOps(x));
  }

  /** Updating for a package, whole or cut short, keeps the cover if and only if its descendants could be charged. */
  lemma UpdateKeepsCoverIff(mp: Mempool, s: Asm, t: Asm, p: set<nat>)
    requires ModifiedCover(mp, s) && s.modified.Keys <= mp.txs.Keys
    requires s.inBlock <= t.inBlock && t.inBlock - s.inBlock <= p && p !! s.inBlock
    requires t.modified == s.modified - (t.inBlock - s.inBlock)
    ensures ModifiedCover(mp, t.(modified := UpdatePackages(mp, t.modified, p)))
            <==> Chargeable(mp, s, p, p - t.inBlock)
  {
    var r := t.(modified := UpdatePackages(mp, t.modified, p));
    forall d | d in mp.txs && d !in p && mp.Anc(d) * p != {}
      ensures d in r.modified
      ensures Covers(mp, r, d, r.modified[d]) <==> CoversWith(mp, s, d, Base(mp, s.modified, d), p - t.inBlock)
    {
      hide UpdatePackages, ModifiedCover, CoversWith, mp.Sizes, mp.SigOpsOf;
      ChargedCoversIff(mp, s, t, p, d);
      assert Package(mp, r, d) == Package(mp, t, d);
    }
    forall d | d in r.modified && !(d in mp.txs && d !in p && mp.Anc(d) * p != {})
      ensures Covers(mp, r, d, r.modified[d])
    {
      hide UpdatePackages, ModifiedCover, CoversWith, mp.Sizes, mp.SigOpsOf;
      UnchargedCovers(mp, s, t, p, d);
      assert Package(mp, r, d) == Package(mp, t, d);
    }
    hide UpdatePackages, Covers, CoversWith, Base;
  }

  /** What is left out of the package an iteration accepts. */
  function LeftOut(mp: Mempool, cfg: Config, order: seq<nat>, s: Asm, ch: Choice): set<nat> {
    Package(mp, s, Target(order, s, ch)) - AddSorted(mp, cfg, Advance(order, s, ch), ch.sorted).inBlock
  }

  /** The descendants of the package an iteration accepts can be charged for what is left out of it. */
  ghost predicate ChargesCovered(mp: Mempool, cfg: Config, order: seq<nat>, s: Asm, ch: Choice) {
    Accepts(mp, cfg, order, s, ch) ==>
      Chargeable(mp, s, Package(mp, s, Target(order, s, ch)), LeftOut(mp, cfg, order, s, ch))
  }

  /** In every mempool, an iteration keeps all figures covered if and only if its charges are. */
  lemma IterateCoverIff(mp: Mempool, cfg: Config, order: seq<nat>, s: Asm, ch: Choice)
    requires Inv(mp, order, s) && ChoiceOk(mp, order, s, ch) && ModifiedCover(mp, s)
    ensures var r := Iterate(mp, cfg, order, s, ch);
            r.Continue? ==> (ModifiedCover(mp, r.next) <==> ChargesCovered(mp, cfg, order, s, ch))
  {
    if Accepts(mp, cfg, order, s, ch) {
      TargetIsOutside(mp, order, s, ch);
      AcceptedCoverIff(mp, cfg, order, s, ch);
      hide Include, ModifiedCover, ChoiceOk, Inv, Chargeable, TestPackage, AllFinal;
    } else {
      CoverMoves(mp, s, s.(mi := s.mi + 1));
      CoverMoves(mp, s, GiveUpOn(order, s, ch));
      hide Include, ModifiedCover, ChoiceOk, Inv, Chargeable, TestPackage, AllFinal;
    }
  }

  lemma AcceptedCoverIff(mp: Mempool, cfg: Config, order: seq<nat>, s: Asm, ch: Choice)
    requires Inv(mp, order, s) && ChoiceOk(mp, order, s, ch) && ModifiedCover(mp, s)
    requires var x := Target(order, s, ch); x in mp.txs && x !in s.inBlock
    ensures ModifiedCover(mp, Include(mp, cfg, order, s, ch))
            <==> Chargeable(mp, s, Package(mp, s, Target(order, s, ch)), LeftOut(mp, cfg, order, s, ch))
  {
    hide BlockOk, mp.GraphOk, SortedPackage, ModifiedCover, AddSorted, UpdatePackages, RoomFor, Chargeable;
    var x, u := Target(order, s, ch), Advance(order, s, ch);
    BlockMoves(mp, s, u);
    CoverMoves(mp, s, u);
    PackageGoesIn(mp, cfg, u, x, ch.sorted);
    UpdateKeepsCoverIff(mp, u, AddSorted(mp, cfg, u, ch.sorted), Package(mp, u, x));
    ChargeableMoves(mp, s, u, Package(mp, u, x), LeftOut(mp, cfg, order, s, ch));
  }

  lemma ChargeableMoves(mp: Mempool, s: Asm, t: Asm, p: set<nat>, left: set<nat>)
    requires t.inBlock == s.inBlock && t.modified == s.modified
    ensures Chargeable(mp, t, p, left) <==> Chargeable(mp, s, p, left)
  {
    forall d ensures Package(mp, t, d) == Package(mp, s, d) {
    }
    hide mp.Sizes, mp.SigOpsOf;
  }

  /** No transaction outside the package an iteration accepts descends from one that is left out of it. */
  ghost predicate NoOrphans(mp: Mempool, cfg: Config, order: seq<nat>, s: Asm, ch: Choice) {
    Accepts(mp, cfg, order, s, ch) ==>
      forall d | d in mp.txs && d !in Package(mp, s, Target(order, s, ch)) ::
        mp.Anc(d) * LeftOut(mp, cfg, order, s, ch) == {}
  }

  /** Then every charge is covered. */
  lemma NoOrphansCovered(mp: Mempool, cfg: Config, order: seq<nat>, s: Asm, ch: Choice)
    requires mp.CachedOk() && ModifiedCover(mp, s) && NoOrphans(mp, cfg, order, s, ch)
    ensures ChargesCovered(mp, cfg, order, s, ch)
  {
    if Accepts(mp, cfg, order, s, ch) {
      var p, left := Package(mp, s, Target(order, s, ch)), LeftOut(mp, cfg, order, s, ch);
      hide Accepts, LeftOut, mp.CachedOk;
      forall d | d in mp.txs && d !in p && mp.Anc(d) * p != {}
        ensures CoversWith(mp, s, d, Base(mp, s.modified, d), left)
      {
        assert mp.Anc(d) * left == {};
        assert mp.Sizes({}) == 0 && mp.SigOpsOf({}) == 0;
        CachedCovers(mp, s, d);
      }
    }
  }

  lemma CoverMoves(mp: Mempool, s: Asm, t: Asm)
    requires ModifiedCover(mp, s) && t.inBlock == s.inBlock
    requires forall x | x in t.modified :: x in s.modified && t.modified[x] == s.modified[x]
    ensures ModifiedCover(mp, t)
  {
    forall x | x in t.modified ensures Covers(mp, t, x, t.modified[x]) {
      assert Covers(mp, s, x, s.modified[x]);
      assert Package(mp, t, x) == Package(mp, s, x);
    }
  }

  // ----- exact figures -----

  /** An entry's figures are those of its package, to the byte. */
  ghost predicate ExactAt(mp: Mempool, s: Asm, x: nat, m: Mod) {
    m.size == mp.Sizes(Package(mp, s, x)) && m.sigops == mp.SigOpsOf(Package(mp, s, x))
  }

  /** Entries that were never given up on have exact figures, and an entry without any has no ancestor in the block. */
  ghost predicate Exact(mp: Mempool, s: Asm) {
    && (forall x | x in s.modified && x !in s.failed :: ExactAt(mp, s, x, s.modified[x]))
    && (forall x | x in mp.txs && x !in s.modified && x !in s.inBlock && x !in s.failed :: mp.Anc(x) * s.inBlock == {})
  }

  lemma CachedExact(mp: Mempool, s: Asm, x: nat)
    requires mp.CachedOk() && x in mp.txs && mp.Anc(x) * s.inBlock == {}
    ensures ExactAt(mp, s, x, Cached(mp, x))
  {
    assert Package(mp, s, x) == mp.Anc(x) + {x};
  }

  lemma BaseExact(mp: Mempool, s: Asm, d: nat)
    requires mp.CachedOk() && Exact(mp, s) && d in mp.txs && d !in s.inBlock && d !in s.failed
    ensures ExactAt(mp, s, d, Base(mp, s.modified, d))
  {
    hide mp.CachedOk;
    if d !in s.modified {
      CachedExact(mp, s, d);
    }
  }

  lemma UpdateValue(mp: Mempool, modified: map<nat, Mod>, p: set<nat>, d: nat)
    requires d in UpdatePackages(mp, modified, p) && d !in p && d in mp.txs
    ensures UpdatePackages(mp, modified, p)[d] == Reduced(mp, Base(mp, modified, d), mp.Anc(d) * p)
  {
    if mp.Anc(d) * p == {} {
      assert mp.Sizes({}) == 0 && mp.SigOpsOf({}) == 0;
    }
  }

  lemma ReducedExact(mp: Mempool, s: Asm, t: Asm, p: set<nat>, d: nat, m: Mod)
    requires t.inBlock == s.inBlock + p && p !! s.inBlock && d !in p && ExactAt(mp, s, d, m)
    ensures ExactAt(mp, t, d, Reduced(mp, m, mp.Anc(d) * p))
  {
    assert p - t.inBlock == {} && mp.Anc(d) * {} == {};
    assert mp.Sizes({}) == 0 && mp.SigOpsOf({}) == 0;
    PackageShrinks(mp, s, t, p, d);
    hide mp.Sizes, mp.SigOpsOf, Package;
  }

  lemma UpdatedIsOutside(mp: Mempool, s: Asm, p: set<nat>, d: nat)
    requires BlockOk(mp, s) && ModifiedOk(mp, s) && p !! s.inBlock && d in UpdatePackages(mp, s.modified - p, p)
    ensures d in mp.txs && d !in p && d !in s.inBlock
  {
  }

  lemma UpdateExactAt(mp: Mempool, s: Asm, t: Asm, p: set<nat>, d: nat)
    requires mp.CachedOk() && BlockOk(mp, s) && ModifiedOk(mp, s) && Exact(mp, s)
    requires t.inBlock == s.inBlock + p && p !! s.inBlock && t.modified == s.modified - p && t.failed == s.failed
    requires d in UpdatePackages(mp, t.modified, p) && d !in t.failed
    ensures ExactAt(mp, t, d, UpdatePackages(mp, t.modified, p)[d])
  {
    UpdatedIsOutside(mp, s, p, d);
    hide mp.CachedOk, BlockOk, ModifiedOk, Exact, ExactAt, UpdatePackages, Reduced;
    BaseExact(mp, s, d);
    UpdateValue(mp, t.modified, p, d);
    ReducedExact(mp, s, t, p, d, Base(mp, s.modified, d));
  }

  lemma UntouchedIsApart(mp: Mempool, s: Asm, p: set<nat>, d: nat)
    requires Exact(mp, s) && d in mp.txs && d !in p && d !in s.inBlock && d !in s.failed
    requires d !in UpdatePackages(mp, s.modified - p, p)
    ensures mp.Anc(d) * (s.inBlock + p) == {}
  {
    assert mp.Anc(d) * p == {} && d !in s.modified;
  }

  /** Updating for a package that went in whole keeps the figures exact. */
  lemma UpdateKeepsExact(mp: Mempool, s: Asm, t: Asm, p: set<nat>)
    requires mp.CachedOk() && BlockOk(mp, s) && ModifiedOk(mp, s) && Exact(mp, s)
    requires t.inBlock == s.inBlock + p && p !! s.inBlock && t.modified == s.modified - p && t.failed == s.failed
    ensures Exact(mp, t.(modified := UpdatePackages(mp, t.modified, p)))
  {
    var r := t.(modified := UpdatePackages(mp, t.modified, p));
    forall d | d in r.modified && d !in r.failed ensures ExactAt(mp, r, d, r.modified[d]) {
      hide UpdatePackages, Exact, mp.CachedOk, mp.Sizes, mp.SigOpsOf, BlockOk, ModifiedOk;
      UpdateExactAt(mp, s, t, p, d);
      assert Package(mp, r, d) == Package(mp, t, d);
    }
    forall d | d in mp.txs && d !in r.modified && d !in r.inBlock && d !in r.failed
      ensures mp.Anc(d) * r.inBlock == {}
    {
      hide UpdatePackages, Exact, mp.CachedOk, BlockOk, ModifiedOk, mp.Anc;
      UntouchedIsApart(mp, s, p, d);
    }
    hide UpdatePackages, ExactAt, mp.CachedOk, BlockOk, ModifiedOk, mp.Anc;
  }

  lemma ExactMoves(mp: Mempool, s: Asm, t: Asm)
    requires Exact(mp, s) && t.inBlock == s.inBlock && s.failed <= t.failed
    requires forall x | x in t.modified :: x in s.modified && t.modified[x] == s.modified[x]
    requires forall x | x in s.modified && x !in t.modified :: x in t.failed
    ensures Exact(mp, t)
  {
    forall x | x in t.modified && x !in t.failed ensures ExactAt(mp, t, x, t.modified[x]) {
      assert Package(mp, t, x) == Package(mp, s, x);
      assert ExactAt(mp, s, x, s.modified[x]);
    }
  }

  /** In every mempool, an iteration that leaves nothing out of the package it accepts keeps all figures exact. */
  lemma IterateKeepsExact(mp: Mempool, cfg: Config, order: seq<nat>, s: Asm, ch: Choice)
    requires Inv(mp, order, s) && mp.CachedOk() && ChoiceOk(mp, order, s, ch) && Exact(mp, s)
    requires Accepts(mp, cfg, order, s, ch) ==> LeftOut(mp, cfg, order, s, ch) == {}
    ensures var r := Iterate(mp, cfg, order, s, ch); r.Continue? ==> Exact(mp, r.next)
  {
    hide Include, Exact, ChoiceOk, Inv, TestPackage, AllFinal, LeftOut, mp.CachedOk, GiveUpOn;
    ExactWhenGivenUp(mp, order, s, ch);
    if Accepts(mp, cfg, order, s, ch) {
      TargetIsOutside(mp, order, s, ch);
      AcceptedKeepsExact(mp, cfg, order, s, ch);
    }
  }

  lemma ExactWhenGivenUp(mp: Mempool, order: seq<nat>, s: Asm, ch: Choice)
    requires Exact(mp, s)
    ensures Exact(mp, s.(mi := s.mi + 1)) && Exact(mp, GiveUpOn(order, s, ch))
  {
    hide Exact;
    ExactMoves(mp, s, s.(mi := s.mi + 1));
    ExactMoves(mp, s, GiveUpOn(order, s, ch));
  }

  lemma AcceptedKeepsExact(mp: Mempool, cfg: Config, order: seq<nat>, s: Asm, ch: Choice)
    requires Inv(mp, order, s) && mp.CachedOk() && ChoiceOk(mp, order, s, ch) && Exact(mp, s)
    requires var x := Target(order, s, ch); x in mp.txs && x !in s.inBlock
    requires LeftOut(mp, cfg, order, s, ch) == {}
    ensures Exact(mp, Include(mp, cfg, order, s, ch))
  {
    hide BlockOk, mp.GraphOk, mp.CachedOk, SortedPackage, Exact, AddSorted, UpdatePackages, RoomFor;
    var x, u := Target(order, s, ch), Advance(order, s, ch);
    var p, t := Package(mp, u, x), AddSorted(mp, cfg, u, ch.sorted);
    BlockMoves(mp, s, u);
    ExactMoves(mp, s, u);
    PackageGoesIn(mp, cfg, u, x, ch.sorted);
    SortedIsAddable(mp, u, x, ch.sorted);
    AddSortedSpec(mp, cfg, u, ch.sorted);
    PackageIsKnown(mp, u, x);
    assert t.inBlock == u.inBlock + p;
    assert t.inBlock - u.inBlock == p;
    UpdateKeepsExact(mp, u, t, p);
  }

  // ----- mempools whose shielded transactions all fit -----

  lemma BlockIsKnown(mp: Mempool, s: Asm)
    requires BlockOk(mp, s)
    ensures s.inBlock <= mp.txs.Keys
  {
  }

  lemma CountMoves(mp: Mempool, s: Asm, t: Asm)
    requires ShieldedCounted(mp, s) && t.inBlock == s.inBlock && t.nSizeShielded == s.nSizeShielded
    ensures ShieldedCounted(mp, t)
  {
  }

  lemma FitHasRoom(mp: Mempool, cfg: Config, s: Asm, p: set<nat>)
    requires ShieldedFit(mp, cfg) && ShieldedCounted(mp, s) && s.inBlock <= mp.txs.Keys && p <= mp.txs.Keys
    requires p !! s.inBlock
    ensures RoomFor(mp, cfg, s, p)
  {
    SumDisjoint(s.inBlock, p, x => mp.ShieldedSize(x));
    SumMonotone(s.inBlock + p, mp.txs.Keys, x => mp.ShieldedSize(x));
  }

  lemma PackageIsKnown(mp: Mempool, s: Asm, x: nat)
    requires mp.GraphOk() && x in mp.txs && x !in s.inBlock
    ensures Package(mp, s, x) <= mp.txs.Keys && Package(mp, s, x) !! s.inBlock
  {
  }

  /** When all shielded transactions fit, no package is cut short. */
  lemma FittingLeavesNothingOut(mp: Mempool, cfg: Config, order: seq<nat>, s: Asm, ch: Choice)
    requires Inv(mp, order, s) && ChoiceOk(mp, order, s, ch) && ShieldedFit(mp, cfg) && ShieldedCounted(mp, s)
    requires Accepts(mp, cfg, order, s, ch)
    ensures LeftOut(mp, cfg, order, s, ch) == {}
  {
    hide BlockOk, ModifiedOk, mp.GraphOk, SortedPackage, ShieldedFit, ShieldedCounted, AddSorted, RoomFor;
    hide TestPackage, AllFinal;
    TargetIsOutside(mp, order, s, ch);
    var x, u := Target(order, s, ch), Advance(order, s, ch);
    BlockMoves(mp, s, u);
    BlockIsKnown(mp, u);
    CountMoves(mp, s, u);
    PackageIsKnown(mp, u, x);
    PackageGoesIn(mp, cfg, u, x, ch.sorted);
    FitHasRoom(mp, cfg, u, Package(mp, u, x));
  }

  lemma FittingHasNoOrphans(mp: Mempool, cfg: Config, order: seq<nat>, s: Asm, ch: Choice)
    requires Inv(mp, order, s) && ChoiceOk(mp, order, s, ch) && ShieldedFit(mp, cfg) && ShieldedCounted(mp, s)
    ensures NoOrphans(mp, cfg, order, s, ch)
  {
    if Accepts(mp, cfg, order, s, ch) {
      FittingLeavesNothingOut(mp, cfg, order, s, ch);
    }
  }

  // ----- termination -----

  /** Fewer transactions outside the block; or the same and further along the walk; or fewer modified entries. */
  ghost predicate Lowers(mp: Mempool, order: seq<nat>, s: Asm, t: Asm) {
    || |mp.txs.Keys - t.inBlock| < |mp.txs.Keys - s.inBlock|
    || (t.inBlock == s.inBlock && t.mi <= |order|
        && (s.mi < t.mi || (s.mi == t.mi && |t.modified.Keys| < |s.modified.Keys|)))
  }

  /** The iteration accepts the package of a modified entry whose first transaction is turned away. */
  ghost predicate Stuck(mp: Mempool, cfg: Config, order: seq<nat>, s: Asm, ch: Choice) {
    && !(s.mi < |order| && Skip(s, order[s.mi])) && !ch.tooCheap && UsesModified(order, s, ch)
    && TestPackage(cfg, s, PackageStats(mp, order, s, ch)) && AllFinal(mp, Package(mp, s, Target(order, s, ch)))
    && ch.sorted != [] && Blocked(mp, cfg, s, ch.sorted[0])
  }

  /** An iteration that goes on lowers the measure if and only if it is not stuck, in every mempool. */
  lemma IterateLowersIff(mp: Mempool, cfg: Config, order: seq<nat>, s: Asm, ch: Choice)
    requires Inv(mp, order, s) && ChoiceOk(mp, order, s, ch)
    ensures var r := Iterate(mp, cfg, order, s, ch);
            r.Continue? ==> (Lowers(mp, order, s, r.next) <==> !Stuck(mp, cfg, order, s, ch))
  {
    hide mp.GraphOk, BlockOk, ModifiedOk, SortedPackage, Include, Blocked;
    var r := Iterate(mp, cfg, order, s, ch);
    var x := Target(order, s, ch);
    if r.Continue? && !(s.mi < |order| && Skip(s, order[s.mi])) {
      TargetIsOutside(mp, order, s, ch);
      SortedNotEmpty(mp, Package(mp, s, x), ch.sorted, x);
      if TestPackage(cfg, s, PackageStats(mp, order, s, ch)) && AllFinal(mp, Package(mp, s, x)) {
        if Blocked(mp, cfg, s, ch.sorted[0]) {
          IncludeBlocked(mp, cfg, order, s, ch);
        } else {
          IncludeGrows(mp, cfg, order, s, ch);
        }
      } else if UsesModified(order, s, ch) {
        assert r.next.modified.Keys == s.modified.Keys - {x};
        assert |r.next.modified.Keys| < |s.modified.Keys|;
      }
    }
  }

  lemma SortedNotEmpty(mp: Mempool, p: set<nat>, q: seq<nat>, x: nat)
    requires SortedPackage(mp, p, q) && x in p
    ensures q != []
  {
    assert x in AsSet(q);
  }

  /** With its first transaction turned away a package adds nothing, and no modified entry goes away. */
  lemma IncludeBlocked(mp: Mempool, cfg: Config, order: seq<nat>, s: Asm, ch: Choice)
    requires ch.sorted != [] && Blocked(mp, cfg, s, ch.sorted[0])
    ensures var r, p := Include(mp, cfg, order, s, ch), Package(mp, s, Target(order, s, ch));
            && r == Advance(order, s, ch).(modified := UpdatePackages(mp, s.modified, p))
            && |s.modified.Keys| <= |r.modified.Keys|
  {
    hide UpdatePackages, Blocked;
    BlockedMoves(mp, cfg, s, Advance(order, s, ch), ch.sorted[0]);
    var p := Package(mp, s, Target(order, s, ch));
    UpdateOnlyAdds(mp, s.modified, p);
    SubsetSize(s.modified.Keys, UpdatePackages(mp, s.modified, p).Keys);
  }

  lemma BlockedMoves(mp: Mempool, cfg: Config, s: Asm, t: Asm, x: nat)
    requires t.nSizeShielded == s.nSizeShielded
    ensures Blocked(mp, cfg, t, x) <==> Blocked(mp, cfg, s, x)
  {
  }

  lemma UpdateOnlyAdds(mp: Mempool, modified: map<nat, Mod>, p: set<nat>)
    ensures modified.Keys <= UpdatePackages(mp, modified, p).Keys
  {
  }

  lemma IncludeGrows(mp: Mempool, cfg: Config, order: seq<nat>, s: Asm, ch: Choice)
    requires Inv(mp, order, s) && ChoiceOk(mp, order, s, ch)
    requires var x := Target(order, s, ch); x in mp.txs && x !in s.inBlock
    requires ch.sorted != [] && !Blocked(mp, cfg, s, ch.sorted[0])
    ensures |mp.txs.Keys - Include(mp, cfg, order, s, ch).inBlock| < |mp.txs.Keys - s.inBlock|
  {
    hide mp.GraphOk, BlockOk, ModifiedOk, Blocked, AddSorted, SortedPackage, UpdatePackages, Addable;
    var u, q, x := Advance(order, s, ch), ch.sorted, Target(order, s, ch);
    BlockMoves(mp, s, u);
    SortedIsAddable(mp, u, x, q);
    AddSortedSpec(mp, cfg, u, q);
    AddableFirst(mp, u, q);
    BlockedMoves(mp, cfg, s, u, q[0]);
    FirstGoesIn(mp, cfg, u, q);
    var t := AddSorted(mp, cfg, u, q);
    assert q[0] in mp.txs.Keys - s.inBlock && q[0] !in mp.txs.Keys - t.inBlock;
    SubsetSize(mp.txs.Keys - t.inBlock, mp.txs.Keys - s.inBlock);
  }

  lemma FirstGoesIn(mp: Mempool, cfg: Config, s: Asm, q: seq<nat>)
    requires BlockOk(mp, s) && Addable(mp, s, q) && q != [] && !Blocked(mp, cfg, s, q[0])
    ensures q[0] in AddSorted(mp, cfg, s, q).inBlock
  {
    hide BlockOk, Addable, Blocked;
    AddableFirst(mp, s, q);
    AddableNext(mp, s, q);
    AddOneSpec(mp, s, q[0]);
    AddSortedSpec(mp, cfg, AddToBlock(mp, s, q[0]), q[1..]);
  }

  /** When all shielded transactions fit, no iteration is stuck. */
  lemma NeverStuck(mp: Mempool, cfg: Config, order: seq<nat>, s: Asm, ch: Choice)
    requires Inv(mp, order, s) && ChoiceOk(mp, order, s, ch) && ShieldedFit(mp, cfg) && ShieldedCounted(mp, s)
    ensures !Stuck(mp, cfg, order, s, ch)
  {
    hide mp.GraphOk, BlockOk, ModifiedOk, Blocked, SortedPackage, Addable, ShieldedFit, ShieldedCounted, RoomFor;
    if Stuck(mp, cfg, order, s, ch) {
      var x := Target(order, s, ch);
      TargetIsOutside(mp, order, s, ch);
      SortedIsAddable(mp, s, x, ch.sorted);
      AddableFirst(mp, s, ch.sorted);
      BlockIsKnown(mp, s);
      PackageIsKnown(mp, s, x);
      FitHasRoom(mp, cfg, s, Package(mp, s, x));
      SortedSet(mp, Package(mp, s, x), ch.sorted);
      assert ch.sorted[0] in AsSet(ch.sorted);
      RoomForBlocked(mp, cfg, s, Package(mp, s, x), ch.sorted[0]);
    }
  }

  lemma IncludeCounts(mp: Mempool, cfg: Config, s: Asm, x: nat, q: seq<nat>)
    requires mp.GraphOk() && BlockOk(mp, s) && ShieldedCounted(mp, s)
    requires x in mp.txs && x !in s.inBlock && SortedPackage(mp, Package(mp, s, x), q)
    ensures ShieldedCounted(mp, IncludePackage(mp, cfg, s, x, q))
  {
    hide mp.GraphOk, BlockOk, SortedPackage, AddSorted, UpdatePackages, RoomFor, Package;
    PackageGoesIn(mp, cfg, s, x, q);
    var t := AddSorted(mp, cfg, s, q);
    var added := t.inBlock - s.inBlock;
    SumDisjoint(s.inBlock, added, y => mp.ShieldedSize(y));
    assert s.inBlock + added == t.inBlock;
  }

  /** In every mempool, an iteration keeps the count of the space that shielded transactions take. */
  lemma IterateCounts(mp: Mempool, cfg: Config, order: seq<nat>, s: Asm, ch: Choice)
    requires Inv(mp, order, s) && ChoiceOk(mp, order, s, ch) && ShieldedCounted(mp, s)
    ensures var r := Iterate(mp, cfg, order, s, ch); r.Continue? ==> ShieldedCounted(mp, r.next)
  {
    hide mp.GraphOk, BlockOk, ModifiedOk, SortedPackage, IncludePackage, ShieldedCounted, TestPackage, AllFinal;
    var u := Advance(order, s, ch);
    CountMoves(mp, s, s.(mi := s.mi + 1));
    CountMoves(mp, s, GiveUpOn(order, s, ch));
    if Accepts(mp, cfg, order, s, ch) {
      TargetIsOutside(mp, order, s, ch);
      BlockMoves(mp, s, u);
      CountMoves(mp, s, u);
      IncludeCounts(mp, cfg, u, Target(order, s, ch), ch.sorted);
    }
  }

  /** Size and signature operations are those of the block's transactions, on top of what is kept for the coinbase. */
  ghost predicate SizesCounted(mp: Mempool, s: Asm) {
    s.nSize == 1000 + mp.Sizes(s.inBlock) && s.nSigOps == 100 + mp.SigOpsOf(s.inBlock)
  }

  lemma IncludeCountsSizes(mp: Mempool, cfg: Config, s: Asm, x: nat, q: seq<nat>)
    requires mp.GraphOk() && BlockOk(mp, s) && SizesCounted(mp, s)
    requires x in mp.txs && x !in s.inBlock && SortedPackage(mp, Package(mp, s, x), q)
    ensures SizesCounted(mp, IncludePackage(mp, cfg, s, x, q))
  {
    hide mp.GraphOk, BlockOk, SortedPackage, AddSorted, UpdatePackages, RoomFor, Package;
    PackageGoesIn(mp, cfg, s, x, q);
    var t := AddSorted(mp, cfg, s, q);
    var added := t.inBlock - s.inBlock;
    SumDisjoint(s.inBlock, added, y => mp.Size(y));
    SumDisjoint(s.inBlock, added, y => mp.SigOps(y));
    assert s.inBlock + added == t.inBlock;
  }

  lemma SizesMove(mp: Mempool, s: Asm, t: Asm)
    requires SizesCounted(mp, s) && t.inBlock == s.inBlock && t.nSize == s.nSize && t.nSigOps == s.nSigOps
    ensures SizesCounted(mp, t)
  {
  }

  /** In every mempool, an iteration keeps the count of the block's size and signature operations. */
  lemma IterateCountsSizes(mp: Mempool, cfg: Config, order: seq<nat>, s: Asm, ch: Choice)
    requires Inv(mp, order, s) && ChoiceOk(mp, order, s, ch) && SizesCounted(mp, s)
    ensures var r := Iterate(mp, cfg, order, s, ch); r.Continue? ==> SizesCounted(mp, r.next)
  {
    hide mp.GraphOk, BlockOk, ModifiedOk, SortedPackage, IncludePackage, SizesCounted, TestPackage, AllFinal;
    var u := Advance(order, s, ch);
    SizesMove(mp, s, s.(mi := s.mi + 1));
    SizesMove(mp, s, GiveUpOn(order, s, ch));
    if Accepts(mp, cfg, order, s, ch) {
      TargetIsOutside(mp, order, s, ch);
      BlockMoves(mp, s, u);
      SizesMove(mp, s, u);
      IncludeCountsSizes(mp, cfg, u, Target(order, s, ch), ch.sorted);
    }
  }
}
