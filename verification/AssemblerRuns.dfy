/**
 Whole runs of the package selection of `BlockAssembler::addPackageTxs`: what every run keeps, which runs
 stay within the block's limits, and exactly when the loop can run for ever.
 */
module AssemblerRuns {
  import opened Arithmetic
  import opened Sets
  import opened AssemblerSpec

  /** Iterating on the choices, none of which stops the loop, leads from `s` to `t`. */
  ghost predicate Reaches(mp: Mempool, cfg: Config, order: seq<nat>, s: Asm, choices: seq<Choice>, t: Asm)
    decreases |choices|
  {
    if choices == [] then s == t
    else
      && ChoiceOk(mp, order, s, choices[0])
      && var r := Iterate(mp, cfg, order, s, choices[0]);
         r.Continue? && Reaches(mp, cfg, order, r.next, choices[1..], t)
  }

  lemma ReachesCons(
    mp: Mempool, cfg: Config, order: seq<nat>, s: Asm, ch: Choice, u: Asm, choices: seq<Choice>, t: Asm)
    requires ChoiceOk(mp, order, s, ch) && Iterate(mp, cfg, order, s, ch) == Continue(u)
    requires Reaches(mp, cfg, order, u, choices, t)
    ensures Reaches(mp, cfg, order, s, [ch] + choices, t)
  {
    hide ChoiceOk, Iterate;
    assert ([ch] + choices)[1..] == choices;
  }

  lemma {:induction false} ReachesThen(
    mp: Mempool, cfg: Config, order: seq<nat>, s: Asm, choices: seq<Choice>, t: Asm, more: seq<Choice>, u: Asm)
    requires Reaches(mp, cfg, order, s, choices, t) && Reaches(mp, cfg, order, t, more, u)
    ensures Reaches(mp, cfg, order, s, choices + more, u)
    decreases |choices|
  {
    hide ChoiceOk, Iterate;
    if choices == [] {
      assert choices + more == more;
    } else {
      var next := Iterate(mp, cfg, order, s, choices[0]).next;
      ReachesThen(mp, cfg, order, next, choices[1..], t, more, u);
      ReachesCons(mp, cfg, order, s, choices[0], next, choices[1..] + more, u);
      assert [choices[0]] + (choices[1..] + more) == choices + more;
    }
  }

  lemma ReachesOneMore(
    mp: Mempool, cfg: Config, order: seq<nat>, s: Asm, choices: seq<Choice>, t: Asm, ch: Choice)
    requires Reaches(mp, cfg, order, s, choices, t) && ChoiceOk(mp, order, t, ch)
    ensures var r := Iterate(mp, cfg, order, t, ch);
            r.Continue? ==> Reaches(mp, cfg, order, s, choices + [ch], r.next)
  {
    hide ChoiceOk, Iterate;
    var r := Iterate(mp, cfg, order, t, ch);
    if r.Continue? {
      assert [ch][1..] == [];
      ReachesThen(mp, cfg, order, s, choices, t, [ch], r.next);
    }
  }

  /**
   After any number of iterations, shielded transactions or not, the block lists each transaction once and
   after all its in-mempool ancestors, and the modified table holds none of them.
   */
  lemma {:induction false} RunKeepsInv(
    mp: Mempool, cfg: Config, order: seq<nat>, s: Asm, choices: seq<Choice>, t: Asm)
    requires Inv(mp, order, s) && Reaches(mp, cfg, order, s, choices, t)
    ensures Inv(mp, order, t)
    decreases |choices|
  {
    hide Inv, ChoiceOk, Iterate;
    if choices != [] {
      IterateKeepsInv(mp, cfg, order, s, choices[0]);
      RunKeepsInv(mp, cfg, order, Iterate(mp, cfg, order, s, choices[0]).next, choices[1..], t);
    }
  }

  /** In every mempool and run, everything that has got into the block is final. */
  lemma {:induction false} RunKeepsFinal(
    mp: Mempool, cfg: Config, order: seq<nat>, s: Asm, choices: seq<Choice>, t: Asm)
    requires Inv(mp, order, s) && Reaches(mp, cfg, order, s, choices, t) && BlockFinal(mp, s)
    ensures BlockFinal(mp, t)
    decreases |choices|
  {
    hide Inv, ChoiceOk, Iterate, BlockFinal;
    if choices != [] {
      IterateKeepsInv(mp, cfg, order, s, choices[0]);
      IterateKeepsFinal(mp, cfg, order, s, choices[0]);
      RunKeepsFinal(mp, cfg, order, Iterate(mp, cfg, order, s, choices[0]).next, choices[1..], t);
    }
  }

  /** From a reset block, every transaction listed in the block is one of the mempool and final. */
  lemma ResetRunsAreFinal(mp: Mempool, cfg: Config, order: seq<nat>, choices: seq<Choice>, t: Asm)
    requires mp.GraphOk() && AsSet(order) == mp.txs.Keys && Reaches(mp, cfg, order, Reset, choices, t)
    ensures forall i | 0 <= i < |t.block| :: t.block[i] in mp.txs && mp.txs[t.block[i]].isFinal
  {
    ResetHoldsInv(mp, order);
    assert BlockFinal(mp, Reset);
    hide mp.GraphOk, Reaches;
    RunKeepsInv(mp, cfg, order, Reset, choices, t);
    RunKeepsFinal(mp, cfg, order, Reset, choices, t);
    forall i | 0 <= i < |t.block| ensures t.block[i] in t.inBlock {
      assert t.block[i] in AsSet(t.block);
    }
  }

  /** Every charge made along the run is covered. */
  ghost predicate CoveredRun(mp: Mempool, cfg: Config, order: seq<nat>, s: Asm, choices: seq<Choice>)
    decreases |choices|
  {
    choices == [] ||
    (&& ChargesCovered(mp, cfg, order, s, choices[0])
     && var r := Iterate(mp, cfg, order, s, choices[0]);
        r.Continue? ==> CoveredRun(mp, cfg, order, r.next, choices[1..]))
  }

  /** No figure understates what its package would add, from here to the end of the run. */
  ghost predicate CoverThroughout(mp: Mempool, cfg: Config, order: seq<nat>, s: Asm, choices: seq<Choice>)
    decreases |choices|
  {
    && ModifiedCover(mp, s)
    && (choices != [] ==>
          var r := Iterate(mp, cfg, order, s, choices[0]);
          r.Continue? ==> CoverThroughout(mp, cfg, order, r.next, choices[1..]))
  }

  /** In every mempool, no figure understates along a run if and only if every charge made in it is covered. */
  lemma {:induction false} CoverThroughoutIff(
    mp: Mempool, cfg: Config, order: seq<nat>, s: Asm, choices: seq<Choice>, t: Asm)
    requires Inv(mp, order, s) && ModifiedCover(mp, s) && Reaches(mp, cfg, order, s, choices, t)
    ensures CoverThroughout(mp, cfg, order, s, choices) <==> CoveredRun(mp, cfg, order, s, choices)
    decreases |choices|
  {
    hide Inv, ChoiceOk, Iterate, ModifiedCover, ChargesCovered;
    if choices != [] {
      var next := Iterate(mp, cfg, order, s, choices[0]).next;
      IterateKeepsInv(mp, cfg, order, s, choices[0]);
      IterateCoverIff(mp, cfg, order, s, choices[0]);
      if ModifiedCover(mp, next) {
        CoverThroughoutIff(mp, cfg, order, next, choices[1..], t);
      }
    }
  }

  /** In every mempool, any run whose charges are covered stays within the limits. */
  lemma {:induction false} RunWithinLimits(
    mp: Mempool, cfg: Config, order: seq<nat>, s: Asm, choices: seq<Choice>, t: Asm)
    requires Inv(mp, order, s) && mp.CachedOk() && SelectionOk(mp, cfg, s)
    requires Reaches(mp, cfg, order, s, choices, t) && CoveredRun(mp, cfg, order, s, choices)
    ensures SelectionOk(mp, cfg, t)
    decreases |choices|
  {
    hide Inv, ChoiceOk, Iterate, ModifiedCover, WithinLimits, ChargesCovered, mp.CachedOk;
    if choices != [] {
      IterateKeepsInv(mp, cfg, order, s, choices[0]);
      IterateWithinLimits(mp, cfg, order, s, choices[0]);
      IterateCoverIff(mp, cfg, order, s, choices[0]);
      RunWithinLimits(mp, cfg, order, Iterate(mp, cfg, order, s, choices[0]).next, choices[1..], t);
    }
  }

  /** Along the run, nothing outside a package descends from a transaction that was left out of it. */
  ghost predicate TidyRun(mp: Mempool, cfg: Config, order: seq<nat>, s: Asm, choices: seq<Choice>)
    decreases |choices|
  {
    choices == [] ||
    (&& NoOrphans(mp, cfg, order, s, choices[0])
     && var r := Iterate(mp, cfg, order, s, choices[0]);
        r.Continue? ==> TidyRun(mp, cfg, order, r.next, choices[1..]))
  }

  lemma {:induction false} TidyRunsAreCovered(
    mp: Mempool, cfg: Config, order: seq<nat>, s: Asm, choices: seq<Choice>, t: Asm)
    requires Inv(mp, order, s) && mp.CachedOk() && ModifiedCover(mp, s)
    requires Reaches(mp, cfg, order, s, choices, t) && TidyRun(mp, cfg, order, s, choices)
    ensures CoveredRun(mp, cfg, order, s, choices)
    decreases |choices|
  {
    hide Inv, ChoiceOk, Iterate, ModifiedCover, ChargesCovered, NoOrphans, mp.CachedOk;
    if choices != [] {
      IterateKeepsInv(mp, cfg, order, s, choices[0]);
      NoOrphansCovered(mp, cfg, order, s, choices[0]);
      IterateCoverIff(mp, cfg, order, s, choices[0]);
      TidyRunsAreCovered(mp, cfg, order, Iterate(mp, cfg, order, s, choices[0]).next, choices[1..], t);
    }
  }

  /** In every mempool, the space counted for shielded transactions is what those in the block take. */
  lemma {:induction false} RunCounts(
    mp: Mempool, cfg: Config, order: seq<nat>, s: Asm, choices: seq<Choice>, t: Asm)
    requires Inv(mp, order, s) && ShieldedCounted(mp, s) && Reaches(mp, cfg, order, s, choices, t)
    ensures ShieldedCounted(mp, t)
    decreases |choices|
  {
    hide Inv, ChoiceOk, Iterate, ShieldedCounted;
    if choices != [] {
      IterateKeepsInv(mp, cfg, order, s, choices[0]);
      IterateCounts(mp, cfg, order, s, choices[0]);
      RunCounts(mp, cfg, order, Iterate(mp, cfg, order, s, choices[0]).next, choices[1..], t);
    }
  }

  lemma {:induction false} FittingRunsAreTidy(
    mp: Mempool, cfg: Config, order: seq<nat>, s: Asm, choices: seq<Choice>, t: Asm)
    requires Inv(mp, order, s) && ShieldedFit(mp, cfg) && ShieldedCounted(mp, s)
    requires Reaches(mp, cfg, order, s, choices, t)
    ensures TidyRun(mp, cfg, order, s, choices)
    decreases |choices|
  {
    hide Inv, ChoiceOk, Iterate, ShieldedCounted, ShieldedFit, NoOrphans;
    if choices != [] {
      IterateKeepsInv(mp, cfg, order, s, choices[0]);
      IterateCounts(mp, cfg, order, s, choices[0]);
      FittingHasNoOrphans(mp, cfg, order, s, choices[0]);
      FittingRunsAreTidy(mp, cfg, order, Iterate(mp, cfg, order, s, choices[0]).next, choices[1..], t);
    }
  }

  /**
   When all shielded transactions of the mempool fit, the figures of every entry that was never given up on
   are exactly those of the transactions that adding it would add, all along every run.
   */
  lemma {:induction false} FittingRunsAreExact(
    mp: Mempool, cfg: Config, order: seq<nat>, s: Asm, choices: seq<Choice>, t: Asm)
    requires Inv(mp, order, s) && mp.CachedOk() && ShieldedFit(mp, cfg) && ShieldedCounted(mp, s) && Exact(mp, s)
    requires Reaches(mp, cfg, order, s, choices, t)
    ensures Exact(mp, t)
    decreases |choices|
  {
    hide Inv, ChoiceOk, Iterate, ShieldedCounted, ShieldedFit, Exact, Accepts, LeftOut, mp.CachedOk;
    if choices != [] {
      IterateKeepsInv(mp, cfg, order, s, choices[0]);
      IterateCounts(mp, cfg, order, s, choices[0]);
      if Accepts(mp, cfg, order, s, choices[0]) {
        FittingLeavesNothingOut(mp, cfg, order, s, choices[0]);
      }
      IterateKeepsExact(mp, cfg, order, s, choices[0]);
      FittingRunsAreExact(mp, cfg, order, Iterate(mp, cfg, order, s, choices[0]).next, choices[1..], t);
    }
  }

  /** In every mempool and run, the figures of the block are those of its transactions. */
  lemma {:induction false} RunCountsSizes(
    mp: Mempool, cfg: Config, order: seq<nat>, s: Asm, choices: seq<Choice>, t: Asm)
    requires Inv(mp, order, s) && SizesCounted(mp, s) && Reaches(mp, cfg, order, s, choices, t)
    ensures SizesCounted(mp, t)
    decreases |choices|
  {
    hide Inv, ChoiceOk, Iterate, SizesCounted;
    if choices != [] {
      IterateKeepsInv(mp, cfg, order, s, choices[0]);
      IterateCountsSizes(mp, cfg, order, s, choices[0]);
      RunCountsSizes(mp, cfg, order, Iterate(mp, cfg, order, s, choices[0]).next, choices[1..], t);
    }
  }

  lemma ResetIsSound(mp: Mempool, cfg: Config, order: seq<nat>)
    requires mp.GraphOk() && AsSet(order) == mp.txs.Keys
    ensures Inv(mp, order, Reset) && SelectionOk(mp, cfg, Reset) && ShieldedCounted(mp, Reset) && Exact(mp, Reset)
  {
    ResetHoldsInv(mp, order);
  }

  lemma ResetIsCounted(mp: Mempool)
    ensures SizesCounted(mp, Reset)
  {
  }

  lemma CountedWithinLimits(mp: Mempool, cfg: Config, t: Asm)
    requires SizesCounted(mp, t) && WithinLimits(cfg, t)
    ensures mp.Sizes(t.inBlock) > 0 ==> mp.Sizes(t.inBlock) + 1000 < cfg.maxSize
    ensures mp.SigOpsOf(t.inBlock) < 39900
  {
    hide mp.Sizes, mp.SigOpsOf;
  }

  /** From a reset block, every tidy run stays within the limits, and every run does when all shielded fit. */
  lemma ResetRunsWithinLimits(mp: Mempool, cfg: Config, order: seq<nat>, choices: seq<Choice>, t: Asm)
    requires mp.Ok() && AsSet(order) == mp.txs.Keys && Reaches(mp, cfg, order, Reset, choices, t)
    ensures (|| TidyRun(mp, cfg, order, Reset, choices)
             || CoveredRun(mp, cfg, order, Reset, choices)
             || ShieldedFit(mp, cfg))
            ==> WithinLimits(cfg, t)
  {
    ResetIsSound(mp, cfg, order);
    hide Inv, ModifiedCover, WithinLimits, ShieldedFit, ShieldedCounted, TidyRun, CoveredRun, Reaches, mp.GraphOk;
    hide mp.CachedOk;
    if ShieldedFit(mp, cfg) {
      FittingRunsAreTidy(mp, cfg, order, Reset, choices, t);
    }
    if TidyRun(mp, cfg, order, Reset, choices) {
      TidyRunsAreCovered(mp, cfg, order, Reset, choices, t);
    }
    if CoveredRun(mp, cfg, order, Reset, choices) {
      RunWithinLimits(mp, cfg, order, Reset, choices, t);
    }
  }

  /**
   What the limits mean for the block from a reset: all its transactions together stay below the size limit less
   1000 bytes and have fewer than 39900 signature operations, unless there are none.
   */
  lemma ResetRunsFit(mp: Mempool, cfg: Config, order: seq<nat>, choices: seq<Choice>, t: Asm)
    requires mp.Ok() && AsSet(order) == mp.txs.Keys && Reaches(mp, cfg, order, Reset, choices, t)
    requires || TidyRun(mp, cfg, order, Reset, choices)
             || CoveredRun(mp, cfg, order, Reset, choices)
             || ShieldedFit(mp, cfg)
    ensures mp.Sizes(t.inBlock) > 0 ==> mp.Sizes(t.inBlock) + 1000 < cfg.maxSize
    ensures mp.SigOpsOf(t.inBlock) < 39900
  {
    assert mp.GraphOk();
    hide *;
    ResetRunsWithinLimits(mp, cfg, order, choices, t);
    ResetIsSound(mp, cfg, order);
    ResetIsCounted(mp);
    RunCountsSizes(mp, cfg, order, Reset, choices, t);
    CountedWithinLimits(mp, cfg, t);
  }

  // ----- termination -----

  /** The lexicographic measure of `Lowers` as one number. */
  function Weigh(a: nat, b: nat, c: nat, m: nat, n: nat): nat {
    (a * m + b) * n + c
  }

  lemma WeighFalls(a: nat, b: nat, c: nat, x: nat, y: nat, z: nat, m: nat, n: nat)
    requires b < m && y < m && c < n && z < n
    requires x < a || (x == a && (y < b || (y == b && z < c)))
    ensures Weigh(x, y, z, m, n) < Weigh(a, b, c, m, n)
  {
    if x < a {
      MulLe(x + 1, a, m);
      assert (x + 1) * m == x * m + m;
    }
    var p, q := x * m + y, a * m + b;
    if p < q {
      MulLe(p + 1, q, n);
      assert (p + 1) * n == p * n + n;
    }
  }

  ghost function Fuel(mp: Mempool, order: seq<nat>, s: Asm): nat {
    Weigh(|mp.txs.Keys - s.inBlock|, if s.mi <= |order| then |order| - s.mi else 0, |s.modified.Keys|,
          |order| + 1, |mp.txs.Keys| + 1)
  }

  lemma LoweringBurnsFuel(mp: Mempool, order: seq<nat>, s: Asm, t: Asm)
    requires Inv(mp, order, s) && Inv(mp, order, t) && Lowers(mp, order, s, t)
    ensures Fuel(mp, order, t) < Fuel(mp, order, s)
  {
    hide *;
    InvBounds(mp, order, s);
    InvBounds(mp, order, t);
    LowersMeans(mp, order, s, t);
    FuelIs(mp, order, s);
    FuelIs(mp, order, t);
    WeighFalls(|mp.txs.Keys - s.inBlock|, |order| - s.mi, |s.modified.Keys|,
               |mp.txs.Keys - t.inBlock|, |order| - t.mi, |t.modified.Keys|, |order| + 1, |mp.txs.Keys| + 1);
  }

  lemma LowersMeans(mp: Mempool, order: seq<nat>, s: Asm, t: Asm)
    requires Lowers(mp, order, s, t)
    ensures var a, b := |mp.txs.Keys - s.inBlock|, |mp.txs.Keys - t.inBlock|;
            || b < a
            || (b == a && (s.mi < t.mi || (s.mi == t.mi && |t.modified.Keys| < |s.modified.Keys|)))
  {
  }

  lemma FuelIs(mp: Mempool, order: seq<nat>, s: Asm)
    requires s.mi <= |order|
    ensures Fuel(mp, order, s) == Weigh(|mp.txs.Keys - s.inBlock|, |order| - s.mi, |s.modified.Keys|,
                                        |order| + 1, |mp.txs.Keys| + 1)
  {
    hide Weigh;
  }

  lemma InvBounds(mp: Mempool, order: seq<nat>, s: Asm)
    requires Inv(mp, order, s)
    ensures s.mi <= |order| && |s.modified.Keys| <= |mp.txs.Keys|
  {
    hide mp.GraphOk, BlockOk, AsSet;
    SubsetSize(s.modified.Keys, mp.txs.Keys);
  }

  /** Some run leads to an iteration that is stuck. */
  ghost predicate CanStick(mp: Mempool, cfg: Config, order: seq<nat>, s: Asm) {
    exists choices, t, ch ::
      Reaches(mp, cfg, order, s, choices, t) && ChoiceOk(mp, order, t, ch) && Stuck(mp, cfg, order, t, ch)
  }

  lemma CanStickEarlier(mp: Mempool, cfg: Config, order: seq<nat>, s: Asm, ch: Choice)
    requires ChoiceOk(mp, order, s, ch)
    ensures Stuck(mp, cfg, order, s, ch) ==> CanStick(mp, cfg, order, s)
    ensures var r := Iterate(mp, cfg, order, s, ch);
            r.Continue? && CanStick(mp, cfg, order, r.next) ==> CanStick(mp, cfg, order, s)
  {
    hide ChoiceOk, Iterate, Stuck;
    assert Reaches(mp, cfg, order, s, [], s);
    var r := Iterate(mp, cfg, order, s, ch);
    if r.Continue? && CanStick(mp, cfg, order, r.next) {
      var choices, t, c :| Reaches(mp, cfg, order, r.next, choices, t)
                           && ChoiceOk(mp, order, t, c) && Stuck(mp, cfg, order, t, c);
      ReachesCons(mp, cfg, order, s, ch, r.next, choices, t);
    }
  }

  /** A run that cannot get stuck has a bounded number of iterations. */
  lemma {:induction false} UnstuckRunsAreShort(
    mp: Mempool, cfg: Config, order: seq<nat>, s: Asm, choices: seq<Choice>, t: Asm)
    requires Inv(mp, order, s) && Reaches(mp, cfg, order, s, choices, t) && !CanStick(mp, cfg, order, s)
    ensures |choices| <= Fuel(mp, order, s)
    decreases |choices|
  {
    hide Inv, ChoiceOk, Iterate, Stuck, CanStick, Lowers, Fuel;
    if choices != [] {
      var next := Iterate(mp, cfg, order, s, choices[0]).next;
      IterateKeepsInv(mp, cfg, order, s, choices[0]);
      CanStickEarlier(mp, cfg, order, s, choices[0]);
      IterateLowersIff(mp, cfg, order, s, choices[0]);
      LoweringBurnsFuel(mp, order, s, next);
      UnstuckRunsAreShort(mp, cfg, order, next, choices[1..], t);
    }
  }

  /** The best modified entry is acceptable but its package starts with a transaction that is turned away. */
  ghost predicate Trapped(mp: Mempool, cfg: Config, s: Asm, ch: Choice) {
    && ch.best in s.modified && ch.bestWins && !ch.tooCheap
    && SortedPackage(mp, Package(mp, s, ch.best), ch.sorted)
    && TestPackage(cfg, s, s.modified[ch.best]) && AllFinal(mp, Package(mp, s, ch.best))
    && ch.sorted != [] && Blocked(mp, cfg, s, ch.sorted[0])
  }

  lemma StuckIsTrapped(mp: Mempool, cfg: Config, order: seq<nat>, s: Asm, ch: Choice)
    requires ChoiceOk(mp, order, s, ch) && Stuck(mp, cfg, order, s, ch)
    ensures Trapped(mp, cfg, s, ch.(bestWins := true))
  {
    hide SortedPackage, TestPackage, AllFinal, Blocked;
  }

  lemma PackageEntryStays(mp: Mempool, modified: map<nat, Mod>, p: set<nat>, x: nat)
    requires x in p && x in modified
    ensures var u := UpdatePackages(mp, modified, p); x in u && u[x] == modified[x]
  {
  }

  lemma TrappedStays(mp: Mempool, cfg: Config, order: seq<nat>, s: Asm, ch: Choice)
    requires Trapped(mp, cfg, s, ch)
    ensures ChoiceOk(mp, order, s, ch)
    ensures var r := Iterate(mp, cfg, order, s, ch); r.Continue? && Trapped(mp, cfg, r.next, ch)
  {
    hide SortedPackage, AllFinal, Blocked, UpdatePackages, Include;
    var r := Iterate(mp, cfg, order, s, ch);
    if s.mi < |order| && Skip(s, order[s.mi]) {
      BlockedMoves(mp, cfg, s, r.next, ch.sorted[0]);
    } else {
      IncludeBlocked(mp, cfg, order, s, ch);
      PackageEntryStays(mp, s.modified, Package(mp, s, ch.best), ch.best);
      BlockedMoves(mp, cfg, s, r.next, ch.sorted[0]);
    }
  }

  /** Some run has at least `n` iterations. */
  ghost predicate RunsFor(mp: Mempool, cfg: Config, order: seq<nat>, s: Asm, n: nat) {
    exists choices, t :: |choices| >= n && Reaches(mp, cfg, order, s, choices, t)
  }

  lemma {:induction false} TrappedRunsOn(mp: Mempool, cfg: Config, order: seq<nat>, s: Asm, ch: Choice, n: nat)
    requires Trapped(mp, cfg, s, ch)
    ensures RunsFor(mp, cfg, order, s, n)
    decreases n
  {
    hide Trapped, ChoiceOk, Iterate;
    if n == 0 {
      assert Reaches(mp, cfg, order, s, [], s);
    } else {
      TrappedStays(mp, cfg, order, s, ch);
      var next := Iterate(mp, cfg, order, s, ch).next;
      TrappedRunsOn(mp, cfg, order, next, ch, n - 1);
      var choices, t :| |choices| >= n - 1 && Reaches(mp, cfg, order, next, choices, t);
      ReachesCons(mp, cfg, order, s, ch, next, choices, t);
    }
  }

  lemma StickingRunsOn(mp: Mempool, cfg: Config, order: seq<nat>, s: Asm, n: nat)
    requires CanStick(mp, cfg, order, s)
    ensures RunsFor(mp, cfg, order, s, n)
  {
    hide Trapped, ChoiceOk, Reaches, Stuck;
    var choices, t, ch :| Reaches(mp, cfg, order, s, choices, t)
                          && ChoiceOk(mp, order, t, ch) && Stuck(mp, cfg, order, t, ch);
    StuckIsTrapped(mp, cfg, order, t, ch);
    TrappedRunsOn(mp, cfg, order, t, ch.(bestWins := true), n);
    var more, u :| |more| >= n && Reaches(mp, cfg, order, t, more, u);
    ReachesThen(mp, cfg, order, s, choices, t, more, u);
  }

  /** The loop has runs without end if and only if some run leads to an iteration that is stuck. */
  lemma EndlessIff(mp: Mempool, cfg: Config, order: seq<nat>, s: Asm)
    requires Inv(mp, order, s)
    ensures (forall n: nat :: RunsFor(mp, cfg, order, s, n)) <==> CanStick(mp, cfg, order, s)
  {
    hide Inv, CanStick, Reaches, Fuel;
    if CanStick(mp, cfg, order, s) {
      forall n: nat ensures RunsFor(mp, cfg, order, s, n) {
        StickingRunsOn(mp, cfg, order, s, n);
      }
    } else if RunsFor(mp, cfg, order, s, Fuel(mp, order, s) + 1) {
      var choices, t :| |choices| >= Fuel(mp, order, s) + 1 && Reaches(mp, cfg, order, s, choices, t);
      UnstuckRunsAreShort(mp, cfg, order, s, choices, t);
      assert false;
    }
  }

  /** When all shielded transactions fit, the loop ends: every run from a reset block is bounded. */
  lemma FittingRunsEnd(mp: Mempool, cfg: Config, order: seq<nat>, choices: seq<Choice>, t: Asm)
    requires mp.GraphOk() && AsSet(order) == mp.txs.Keys && ShieldedFit(mp, cfg)
    requires Reaches(mp, cfg, order, Reset, choices, t)
    ensures !CanStick(mp, cfg, order, Reset) && |choices| <= Fuel(mp, order, Reset)
  {
    ResetHoldsInv(mp, order);
    hide mp.GraphOk, Inv, ChoiceOk, ShieldedFit, Reaches, Stuck, Fuel;
    if CanStick(mp, cfg, order, Reset) {
      var more, u, ch :| Reaches(mp, cfg, order, Reset, more, u)
                         && ChoiceOk(mp, order, u, ch) && Stuck(mp, cfg, order, u, ch);
      RunKeepsInv(mp, cfg, order, Reset, more, u);
      RunCounts(mp, cfg, order, Reset, more, u);
      NeverStuck(mp, cfg, order, u, ch);
    }
    UnstuckRunsAreShort(mp, cfg, order, Reset, choices, t);
  }

  // ----- two mempools with shielded transactions that do not fit -----

  /**
   When the best modified entry's package starts with a blocked shielded transaction and nothing outside
   the package descends from it, an iteration that finds the package acceptable changes nothing at all.
   */
  lemma BlockedPackageStalls(mp: Mempool, cfg: Config, order: seq<nat>, s: Asm, ch: Choice)
    requires ChoiceOk(mp, order, s, ch) && s.mi >= |order| && s.modified != map[] && !ch.tooCheap
    requires TestPackage(cfg, s, PackageStats(mp, order, s, ch)) && AllFinal(mp, Package(mp, s, ch.best))
    requires ch.sorted != [] && Blocked(mp, cfg, s, ch.sorted[0])
    requires forall d | d in mp.txs && d !in Package(mp, s, ch.best) :: mp.Anc(d) * Package(mp, s, ch.best) == {}
    ensures Iterate(mp, cfg, order, s, ch) == Continue(s)
  {
    var p := Package(mp, s, ch.best);
    UpdateChangesNothing(mp, s.modified, p);
    hide SortedPackage, UpdatePackages, mp.Anc;
    assert AddSorted(mp, cfg, s, ch.sorted) == s;
  }

  lemma UpdateChangesNothing(mp: Mempool, modified: map<nat, Mod>, p: set<nat>)
    requires forall d | d in mp.txs && d !in p :: mp.Anc(d) * p == {}
    ensures UpdatePackages(mp, modified, p) == modified
  {
  }

  /** A shielded transaction and a child of it. */
  const StallPool := Mempool(
    map[1 := Tx(10, 0, true, true), 2 := Tx(10, 0, false, true)],
    map[1 := {}, 2 := {1}],
    map[1 := Mod(10, 0), 2 := Mod(20, 0)])

  const StallState := Reset.(modified := map[2 := Mod(10, 0)], mi := 2)

  lemma StallPoolOk()
    ensures StallPool.Ok() && AsSet([1, 2]) == StallPool.txs.Keys
    ensures StallPool.Sizes({1}) == 10 && StallPool.SigOpsOf({1}) == 0
  {
    var mp := StallPool;
    assert mp.Sizes({}) == 0 && mp.SigOpsOf({}) == 0;
    SumAdd({}, x => mp.Size(x), 1);
    SumAdd({}, x => mp.SigOps(x), 1);
    SumAdd({1}, x => mp.Size(x), 2);
    SumAdd({1}, x => mp.SigOps(x), 2);
    assert {} + {1} == {1} && {1} + {2} == {1, 2};
    assert mp.Sizes({1}) == 10 && mp.Sizes({1, 2}) == 20;
    assert mp.SigOpsOf({1}) == 0 && mp.SigOpsOf({1, 2}) == 0;
  }

  const StallConfig := Config(100000, true)
  const StallFirst := Choice(0, false, false, [1])
  const StallAgain := Choice(2, false, false, [1, 2])
  const StallMiddle := Reset.(modified := map[2 := Mod(10, 0)], mi := 1)

  lemma StallUpdate()
    ensures UpdatePackages(StallPool, map[], {1}) == map[2 := Mod(10, 0)]
  {
    var mp := StallPool;
    StallPoolOk();
    hide mp.Ok, mp.Sizes, mp.SigOpsOf;
    assert mp.Anc(2) * {1} == {1} && mp.Anc(1) * {1} == {};
  }

  lemma StallFirstStep()
    ensures ChoiceOk(StallPool, [1, 2], Reset, StallFirst)
    ensures Iterate(StallPool, StallConfig, [1, 2], Reset, StallFirst) == Continue(StallMiddle)
  {
    StallUpdate();
    hide UpdatePackages;
    assert AsSet([1]) == {1};
    assert Package(StallPool, Reset, 1) == {1};
    assert AddSorted(StallPool, StallConfig, Reset.(mi := 1), [1]) == Reset.(mi := 1);
  }

  lemma StallPackage(s: Asm)
    requires s.inBlock == {}
    ensures SortedPackage(StallPool, Package(StallPool, s, 2), [1, 2])
    ensures Package(StallPool, s, 2) == {1, 2}
  {
    assert AsSet([1, 2]) == {1, 2};
    assert Package(StallPool, s, 2) == {1, 2};
  }

  lemma StallSecondStep()
    ensures ChoiceOk(StallPool, [1, 2], StallMiddle, StallAgain)
    ensures Iterate(StallPool, StallConfig, [1, 2], StallMiddle, StallAgain) == Continue(StallState)
  {
    StallPackage(StallMiddle);
    hide SortedPackage;
    assert Target([1, 2], StallMiddle, StallAgain) == 2;
  }

  lemma StallRepeats()
    ensures ChoiceOk(StallPool, [1, 2], StallState, StallAgain)
    ensures Iterate(StallPool, StallConfig, [1, 2], StallState, StallAgain) == Continue(StallState)
  {
    StallPackage(StallState);
    hide SortedPackage, Iterate;
    BlockedPackageStalls(StallPool, StallConfig, [1, 2], StallState, StallAgain);
  }

  /** During Sapling maintenance the loop can reach, from a reset block, a state it never leaves. */
  lemma StallIsReachable()
    ensures StallPool.Ok() && AsSet([1, 2]) == StallPool.txs.Keys
    ensures Reaches(StallPool, StallConfig, [1, 2], Reset, [StallFirst, StallAgain], StallState)
    ensures ChoiceOk(StallPool, [1, 2], StallState, StallAgain)
    ensures Iterate(StallPool, StallConfig, [1, 2], StallState, StallAgain) == Continue(StallState)
  {
    hide StallPool.Ok, ChoiceOk, Iterate, AsSet;
    StallPoolOk();
    StallFirstStep();
    StallSecondStep();
    StallRepeats();
    assert [StallFirst, StallAgain][1..] == [StallAgain] && [StallAgain][1..] == [];
    assert Reaches(StallPool, StallConfig, [1, 2], StallMiddle, [StallAgain], StallState);
  }

  /** A shielded transaction with one child, and a large transaction that shares another child with it. */
  const LimitPool := Mempool(
    map[1 := Tx(50000, 0, true, true), 2 := Tx(10, 0, false, true),
        3 := Tx(59000, 0, false, true), 4 := Tx(10, 0, false, true)],
    map[1 := {}, 2 := {1}, 3 := {}, 4 := {1, 3}],
    map[1 := Mod(50000, 0), 2 := Mod(50010, 0), 3 := Mod(59000, 0), 4 := Mod(109010, 0)])

  const LimitConfig := Config(60000, true)
  const LimitOrder: seq<nat> := [1, 3, 2, 4]
  const LimitFirst := Choice(0, false, false, [1])
  const LimitSecond := Choice(2, true, false, [1, 2])
  const LimitThird := Choice(4, true, false, [3, 1, 4])
  const LimitOnce := Reset.(modified := map[2 := Mod(10, 0), 4 := Mod(59010, 0)], mi := 1)
  const LimitTwice := Reset.(modified := map[2 := Mod(10, 0), 4 := Mod(9010, 0)], mi := 1)

  lemma LimitTable()
    ensures LimitPool.txs.Keys == {1, 2, 3, 4} && !LimitPool.Shielded(3) && LimitPool.Shielded(1)
    ensures LimitPool.Anc(1) == {} && LimitPool.Anc(2) == {1} && LimitPool.Anc(3) == {} && LimitPool.Anc(4) == {1, 3}
    ensures forall x :: LimitPool.SigOps(x) == 0
    ensures forall p :: AllFinal(LimitPool, p)
  {
  }

  lemma LimitSizes()
    ensures LimitPool.Size(1) == 50000 && LimitPool.Size(2) == 10
    ensures LimitPool.Size(3) == 59000 && LimitPool.Size(4) == 10
    ensures Cached(LimitPool, 1) == Mod(50000, 0) && Cached(LimitPool, 2) == Mod(50010, 0)
    ensures Cached(LimitPool, 3) == Mod(59000, 0) && Cached(LimitPool, 4) == Mod(109010, 0)
  {
  }

  lemma LimitPoolAdd(s: set<nat>, x: nat)
    requires x !in s
    ensures LimitPool.Sizes(s + {x}) == LimitPool.Sizes(s) + LimitPool.Size(x)
    ensures LimitPool.SigOpsOf(s + {x}) == LimitPool.SigOpsOf(s) + LimitPool.SigOps(x)
    ensures LimitPool.Sizes({}) == 0 && LimitPool.SigOpsOf({}) == 0
  {
    hide LimitPool;
    SumAdd(s, y => LimitPool.Size(y), x);
    SumAdd(s, y => LimitPool.SigOps(y), x);
  }

  lemma LimitPoolSums()
    ensures LimitPool.Sizes({} + {1}) == 50000 && LimitPool.SigOpsOf({} + {1}) == 0
    ensures LimitPool.Sizes({1} + {2}) == 50010 && LimitPool.SigOpsOf({1} + {2}) == 0
    ensures LimitPool.Sizes({} + {3}) == 59000 && LimitPool.SigOpsOf({} + {3}) == 0
    ensures LimitPool.Sizes({1, 3} + {4}) == 109010 && LimitPool.SigOpsOf({1, 3} + {4}) == 0
    ensures {} + {1} == {1}
  {
    LimitTable();
    LimitSizes();
    hide LimitPool, LimitPool.Sizes, LimitPool.SigOpsOf, LimitPool.Size, LimitPool.SigOps;
    LimitPoolAdd({}, 1);
    LimitPoolAdd({}, 3);
    LimitPoolAdd({1}, 2);
    LimitPoolAdd({1}, 3);
    LimitPoolAdd({1, 3}, 4);
    assert {} + {1} == {1};
    assert {1} + {3} == {1, 3};
  }

  lemma LimitGraphOk()
    ensures LimitPool.GraphOk()
  {
    LimitTable();
    assert LimitPool.anc.Keys == {1, 2, 3, 4};
    hide LimitPool;
    assert LimitPool.Anc(1) == LimitPool.anc[1] && LimitPool.Anc(2) == LimitPool.anc[2];
    assert LimitPool.Anc(3) == LimitPool.anc[3] && LimitPool.Anc(4) == LimitPool.anc[4];
  }

  lemma LimitOrderOk()
    ensures AsSet(LimitOrder) == LimitPool.txs.Keys
  {
    LimitTable();
    hide LimitPool;
  }

  lemma LimitCachedOk()
    ensures LimitPool.CachedOk()
  {
    LimitTable();
    LimitSizes();
    LimitPoolSums();
    assert LimitPool.cached.Keys == LimitPool.txs.Keys;
    hide LimitPool, LimitPool.Sizes, LimitPool.SigOpsOf, LimitPool.Anc;
    forall x | x in LimitPool.cached
      ensures var p := LimitPool.Anc(x) + {x}; Cached(LimitPool, x) == Mod(LimitPool.Sizes(p), LimitPool.SigOpsOf(p))
    {
      assert x == 1 || x == 2 || x == 3 || x == 4;
    }
  }

  lemma LimitPoolOk()
    ensures LimitPool.Ok() && AsSet(LimitOrder) == LimitPool.txs.Keys
  {
    LimitGraphOk();
    LimitOrderOk();
    LimitCachedOk();
    hide LimitPool, LimitPool.GraphOk, LimitPool.CachedOk;
  }

  lemma LimitUpdate(modified: map<nat, Mod>, p: set<nat>)
    requires modified.Keys <= {2, 4} && 1 in p && 3 !in p && 4 !in p
    ensures var u := UpdatePackages(LimitPool, modified, p);
            && u.Keys == modified.Keys + {4} + (if 2 in p then {} else {2})
            && var m := Base(LimitPool, modified, 4); u[4] == Mod(m.size - 50000, m.sigops)
    ensures 2 !in p ==> var m := Base(LimitPool, modified, 2);
                        UpdatePackages(LimitPool, modified, p)[2] == Mod(m.size - 50000, m.sigops)
    ensures 2 in p && 2 in modified ==> UpdatePackages(LimitPool, modified, p)[2] == modified[2]
  {
    LimitTable();
    LimitPoolSums();
    assert {1} * p == {1} && {1, 3} * p == {1};
    hide LimitPool, LimitPool.Sizes, LimitPool.SigOpsOf, LimitPool.Anc;
    var u := UpdatePackages(LimitPool, modified, p);
    assert 4 in u;
    assert 2 in p || 2 in u;
  }

  lemma LimitFirstStep()
    ensures ChoiceOk(LimitPool, LimitOrder, Reset, LimitFirst)
    ensures Iterate(LimitPool, LimitConfig, LimitOrder, Reset, LimitFirst) == Continue(LimitOnce)
  {
    LimitTable();
    LimitSizes();
    hide LimitPool, UpdatePackages, LimitPool.Anc, LimitPool.Shielded, LimitPool.Size, Cached, AllFinal;
    assert AsSet([1]) == {1};
    assert Package(LimitPool, Reset, 1) == {1};
    LimitUpdate(map[], {1});
    IncludeBlocked(LimitPool, LimitConfig, LimitOrder, Reset, LimitFirst);
  }

  lemma LimitSecondChoice()
    ensures ChoiceOk(LimitPool, LimitOrder, LimitOnce, LimitSecond) && Package(LimitPool, LimitOnce, 2) == {1, 2}
  {
    LimitTable();
    hide LimitPool, LimitPool.Anc;
    assert Package(LimitPool, LimitOnce, 2) == {1, 2};
    var q: seq<nat> := [1, 2];
    assert SortedPackage(LimitPool, {1, 2}, q) by {
      assert AsSet(q) == {1, 2};
      assert LimitPool.CountWithAncestors(1) == 1 && LimitPool.CountWithAncestors(2) == 2;
    }
    hide SortedPackage;
    assert 2 in LimitOnce.modified && Target(LimitOrder, LimitOnce, LimitSecond) == 2;
  }

  lemma LimitSecondUpdate()
    ensures UpdatePackages(LimitPool, LimitOnce.modified, {1, 2}) == LimitTwice.modified
  {
    LimitUpdate(LimitOnce.modified, {1, 2});
    hide LimitPool, UpdatePackages;
  }

  lemma LimitSecondStep()
    ensures Iterate(LimitPool, LimitConfig, LimitOrder, LimitOnce, LimitSecond) == Continue(LimitTwice)
  {
    LimitTable();
    LimitSecondChoice();
    LimitSecondUpdate();
    hide LimitPool, UpdatePackages, LimitPool.Anc, LimitPool.Shielded, AllFinal, Include, Package, ChoiceOk;
    IncludeBlocked(LimitPool, LimitConfig, LimitOrder, LimitOnce, LimitSecond);
  }

  lemma LimitThirdChoice()
    ensures ChoiceOk(LimitPool, LimitOrder, LimitTwice, LimitThird)
  {
    LimitTable();
    hide LimitPool, LimitPool.Anc;
    assert AsSet([3, 1, 4]) == {1, 3, 4};
    assert Package(LimitPool, LimitTwice, 4) == {1, 3, 4};
    assert |{1, 3}| == 2;
  }

  lemma LimitThirdStep()
    ensures var r := Iterate(LimitPool, LimitConfig, LimitOrder, LimitTwice, LimitThird);
            r.Continue? && r.next.nSize == 60000
  {
    LimitTable();
    LimitSizes();
    hide LimitPool, UpdatePackages, LimitPool.Anc, LimitPool.Shielded, LimitPool.Size, Cached, AllFinal;
    var q := LimitThird.sorted;
    assert q[0] == 3 && q[1..][0] == 1;
    assert 4 in LimitTwice.modified && LimitTwice.modified[4] == Mod(9010, 0);
    assert PackageStats(LimitPool, LimitOrder, LimitTwice, LimitThird) == Mod(9010, 0);
    var t := AddToBlock(LimitPool, LimitTwice, 3);
    assert AddSorted(LimitPool, LimitConfig, t, q[1..]) == t;
    assert AddSorted(LimitPool, LimitConfig, LimitTwice, q) == t;
    assert t.nSize == 60000;
    assert Advance(LimitOrder, LimitTwice, LimitThird) == LimitTwice;
    assert Include(LimitPool, LimitConfig, LimitOrder, LimitTwice, LimitThird).nSize == 60000;
  }

  /**
   Shielded transactions that are turned away can carry the block over its size limit: each time a package
   is cut short, what descends from it is charged less as though the whole package had gone in.
   */
  lemma LimitsCanBreak()
    ensures LimitPool.Ok() && AsSet(LimitOrder) == LimitPool.txs.Keys
    ensures exists t :: Reaches(LimitPool, LimitConfig, LimitOrder, Reset, [LimitFirst, LimitSecond, LimitThird], t)
                        && !WithinLimits(LimitConfig, t)
  {
    hide LimitPool, LimitPool.Ok, ChoiceOk, Iterate, AsSet;
    LimitPoolOk();
    LimitFirstStep();
    LimitSecondChoice();
    LimitSecondStep();
    LimitThirdChoice();
    LimitThirdStep();
    var t := Iterate(LimitPool, LimitConfig, LimitOrder, LimitTwice, LimitThird).next;
    ReachesCons(LimitPool, LimitConfig, LimitOrder, LimitTwice, LimitThird, t, [], t);
    ReachesCons(LimitPool, LimitConfig, LimitOrder, LimitOnce, LimitSecond, LimitTwice, [LimitThird], t);
    ReachesCons(LimitPool, LimitConfig, LimitOrder, Reset, LimitFirst, LimitOnce, [LimitSecond, LimitThird], t);
    assert [LimitFirst] + [LimitSecond, LimitThird] == [LimitFirst, LimitSecond, LimitThird];
  }
}
