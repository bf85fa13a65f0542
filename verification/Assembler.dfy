/**
 `BlockAssembler` as an object: the block under construction is its state, the modified table and the
 failed set are the loop's own.  Each method is proved against `AssemblerSpec`.
 */
module Assembler {
  import opened Sets
  import opened AssemblerSpec
  import opened AssemblerRuns

  class BlockAssembler {
    var inBlock: set<nat>
    var block: seq<nat>
    var nBlockSize: nat
    var nBlockSigOps: nat
    var nSizeShielded: nat

    function View(modified: map<nat, Mod>, failed: set<nat>, mi: nat): Asm
      reads this
    {
      Asm(inBlock, block, nBlockSize, nBlockSigOps, nSizeShielded, modified, failed, mi)
    }

    constructor ()
      ensures View(map[], {}, 0) == Reset
    {
      inBlock, block := {}, [];
      nBlockSize, nBlockSigOps, nSizeShielded := 1000, 100, 0;
    }

    /** Removes the entries that are already in the block. */
    method OnlyUnconfirmed(testSet: set<nat>) returns (r: set<nat>)
      ensures r == testSet - inBlock
    {
      r := testSet;
      var todo := testSet;
      while todo != {}
        invariant todo <= testSet
        invariant r == testSet - (inBlock - todo)
      {
        var x :| x in todo;
        if x in inBlock {
          r := r - {x};
        }
        todo := todo - {x};
      }
    }

    method AddToBlock(mp: Mempool, x: nat, ghost m: map<nat, Mod>, ghost failed: set<nat>, ghost mi: nat)
      requires x in mp.txs
      modifies this
      ensures View(m - {x}, failed, mi) == AssemblerSpec.AddToBlock(mp, old(View(m, failed, mi)), x)
    {
      if mp.txs[x].shielded {
        nSizeShielded := nSizeShielded + mp.txs[x].size;
      }
      block := block + [x];
      nBlockSize := nBlockSize + mp.txs[x].size;
      nBlockSigOps := nBlockSigOps + mp.txs[x].sigops;
      inBlock := inBlock + {x};
    }

    /** Adds a sorted package, stopping at the first shielded transaction that may not go in. */
    method AddSortedPackage(mp: Mempool, cfg: Config, q: seq<nat>, modified: map<nat, Mod>, ghost failed: set<nat>,
            ghost mi: nat)
      returns (m: map<nat, Mod>)
      requires forall x | x in q :: x in mp.txs
      modifies this
      ensures View(m, failed, mi) == AddSorted(mp, cfg, old(View(modified, failed, mi)), q)
    {
      m := modified;
      var i := 0;
      assert q[0..] == q;
      while i < |q|
        invariant i <= |q|
        invariant AddSorted(mp, cfg, View(m, failed, mi), q[i..])
            == AddSorted(mp, cfg, old(View(modified, failed, mi)), q)
      {
        var x := q[i];
        assert q[i..][0] == x && q[i..][1..] == q[i + 1..];
        if mp.txs[x].shielded {
          if cfg.sapling_maintenance {
            return;
          }
          if nSizeShielded + mp.txs[x].size > MAX_BLOCK_SHIELDED_TXES_SIZE {
            return;
          }
        }
        AddToBlock(mp, x, m, failed, mi);
        m := m - {x};
        i := i + 1;
      }
    }

    /**
     The selection loop, for mempools on which it cannot get stuck, which are exactly those on which it has
     no endless run.  Which modified entry is best, whether it beats the next mempool entry and whether a
     package pays too little are arbitrary here.  The loop ends, at a state that iterating on some choices
     reaches from a reset block and where one more iteration stops.  Each transaction is in the block once,
     is final, and comes after all its in-mempool ancestors; and the block is within its limits when every
     charge of the run is covered, so for tidy runs and whenever all shielded transactions fit.
     */
    method AddPackageTxs(mp: Mempool, cfg: Config, order: seq<nat>)
      returns (modified: map<nat, Mod>, failed: set<nat>, mi: nat, ghost choices: seq<Choice>, ghost last: Choice)
      requires Selectable(mp, cfg, order) && View(map[], {}, 0) == Reset
      modifies this
      ensures Reaches(mp, cfg, order, Reset, choices, View(modified, failed, mi))
      ensures Iterate(mp, cfg, order, View(modified, failed, mi), last) == Stopped
      ensures Inv(mp, order, View(modified, failed, mi))
      ensures forall i | 0 <= i < |block| :: block[i] in mp.txs && mp.txs[block[i]].isFinal
      ensures (|| CoveredRun(mp, cfg, order, Reset, choices)
               || TidyRun(mp, cfg, order, Reset, choices)
               || ShieldedFit(mp, cfg))
              ==> WithinLimits(cfg, View(modified, failed, mi))
    {
      hide Inv, LoopOk, WithinLimits, Iterate, ChoiceOk, Selectable, Reaches, CoveredRun, TidyRun, ShieldedFit, mp.Ok;
      Start(mp, cfg, order);
      modified, failed, mi, choices, last := map[], {}, 0, [], Choice(0, false, true, []);
      while mi < |order| || modified != map[]
        invariant LoopOk(mp, cfg, order, View(modified, failed, mi))
        invariant Reaches(mp, cfg, order, Reset, choices, View(modified, failed, mi))
        decreases |mp.txs.Keys - inBlock|, if mi <= |order| then |order| - mi else 0, |modified.Keys|
      {
        ghost var s := View(modified, failed, mi);
        var ch := Decide(mp, order, modified, failed, mi);
        StepFacts(mp, cfg, order, s, ch, choices);
        var skip := mi < |order| && (order[mi] in modified || order[mi] in inBlock || order[mi] in failed);
        if !skip && ch.tooCheap {
          last := ch;
          StopsHere(mp, cfg, order, s, ch, choices);
          return;
        }
        modified, failed, mi := Step(mp, cfg, order, ch, modified, failed, mi);
        choices := choices + [ch];
      }
      StopsHere(mp, cfg, order, View(modified, failed, mi), last, choices);
    }

    /** Everything fees decide, chosen freely among what the code could do; the package is sorted on the way. */
    method Decide(mp: Mempool, order: seq<nat>, modified: map<nat, Mod>, failed: set<nat>, mi: nat)
      returns (ch: Choice)
      requires mi < |order| || modified != map[]
      ensures ChoiceOk(mp, order, View(modified, failed, mi), ch)
    {
      var best, bestWins, tooCheap := 0, false, false;
      if modified != map[] {
        best :| best in modified;
      }
      bestWins := *;
      tooCheap := *;
      var draft := Choice(best, bestWins, tooCheap, []);
      var x := Target(order, View(modified, failed, mi), draft);
      var ancestors := OnlyUnconfirmed(mp.Anc(x));
      ancestors := ancestors + {x};
      var sorted := SortForBlock(mp, ancestors);
      ch := draft.(sorted := sorted);
    }

    /** One iteration that does not stop the loop. */
    method Step(mp: Mempool, cfg: Config, order: seq<nat>, ch: Choice, modified: map<nat, Mod>, failed: set<nat>,
            mi: nat)
      returns (m: map<nat, Mod>, f: set<nat>, i: nat)
      requires mp.Ok() && Inv(mp, order, View(modified, failed, mi)) && !Finished(order, View(modified, failed, mi))
      requires ChoiceOk(mp, order, View(modified, failed, mi), ch)
      requires !ch.tooCheap || (mi < |order| && Skip(View(modified, failed, mi), order[mi]))
      modifies this
      ensures Iterate(mp, cfg, order, old(View(modified, failed, mi)), ch) == Continue(View(m, f, i))
    {
      hide BlockOk, ModifiedOk, SortedPackage, IncludePackage, mp.GraphOk, mp.CachedOk;
      ghost var s := View(modified, failed, mi);
      m, f, i := modified, failed, mi;
      if mi < |order| && (order[mi] in modified || order[mi] in inBlock || order[mi] in failed) {
        i := mi + 1;
        return;
      }
      TargetIsOutside(mp, order, s, ch);
      var usingModified := mi >= |order| || (modified != map[] && ch.bestWins);
      var x := if usingModified then ch.best else order[mi];
      if !usingModified {
        i := mi + 1;
      }
      assert x !in inBlock;
      var stats := if usingModified then modified[x] else Cached(mp, x);
      if !TestPackage(cfg, View(modified, failed, mi), stats) || !AllFinal(mp, mp.Anc(x) - inBlock + {x}) {
        if usingModified {
          m := m - {x};
          f := f + {x};
        }
        return;
      }
      m := AddPackage(mp, cfg, x, ch.sorted, m, f, i);
    }

    /** Adds an acceptable package and updates the entries that depend on it. */
    method AddPackage(mp: Mempool, cfg: Config, x: nat, sorted: seq<nat>, modified: map<nat, Mod>,
            ghost failed: set<nat>, ghost mi: nat)
      returns (m: map<nat, Mod>)
      requires mp.GraphOk() && x in mp.txs && SortedPackage(mp, Package(mp, View(modified, failed, mi), x), sorted)
      modifies this
      ensures View(m, failed, mi) == IncludePackage(mp, cfg, old(View(modified, failed, mi)), x, sorted)
    {
      MembersKnown(mp, View(modified, failed, mi), x, sorted);
      hide SortedPackage, AddSorted, UpdatePackages, mp.GraphOk;
      var package := mp.Anc(x) - inBlock + {x};
      m := AddSortedPackage(mp, cfg, sorted, modified, failed, mi);
      m := UpdatePackagesForAdded(mp, package, m);
    }

    /** Sorts a package by ancestor count. */
    method SortForBlock(mp: Mempool, package: set<nat>) returns (q: seq<nat>)
      ensures SortedPackage(mp, package, q)
    {
      q := [];
      var todo := package;
      AsSetEmpty();
      while todo != {}
        invariant todo <= package && AsSet(q) == package - todo && Distinct(q)
        invariant forall i, j | 0 <= i < j < |q| :: mp.CountWithAncestors(q[i]) <= mp.CountWithAncestors(q[j])
        invariant forall i, x | 0 <= i < |q| && x in todo :: mp.CountWithAncestors(q[i]) <= mp.CountWithAncestors(x)
      {
        var x := Fewest(mp, todo);
        AsSetAppend(q, x);
        assert x !in AsSet(q);
        q := q + [x];
        todo := todo - {x};
      }
    }
  }

  /** The mempool and the walk over it, as the selection loop needs them. */
  ghost predicate Selectable(mp: Mempool, cfg: Config, order: seq<nat>) {
    mp.Ok() && AsSet(order) == mp.txs.Keys && !CanStick(mp, cfg, order, Reset)
  }

  method Fewest(mp: Mempool, s: set<nat>) returns (m: nat)
    requires s != {}
    ensures m in s && forall x | x in s :: mp.CountWithAncestors(m) <= mp.CountWithAncestors(x)
  {
    m :| m in s;
    var rest := s - {m};
    while rest != {}
      invariant m in s && rest <= s
      invariant forall x | x in s && x !in rest :: mp.CountWithAncestors(m) <= mp.CountWithAncestors(x)
    {
      var x :| x in rest;
      if mp.CountWithAncestors(x) < mp.CountWithAncestors(m) {
        m := x;
      }
      rest := rest - {x};
    }
  }

  /** When all shielded transactions fit, the loop cannot get stuck. */
  lemma FittingIsSelectable(mp: Mempool, cfg: Config, order: seq<nat>)
    requires mp.Ok() && AsSet(order) == mp.txs.Keys && ShieldedFit(mp, cfg)
    ensures Selectable(mp, cfg, order)
  {
    OkHasParts(mp);
    assert Reaches(mp, cfg, order, Reset, [], Reset);
    hide mp.Ok, mp.GraphOk, ShieldedFit, CanStick, Reaches;
    FittingRunsEnd(mp, cfg, order, [], Reset);
  }

  ghost predicate LoopOk(mp: Mempool, cfg: Config, order: seq<nat>, s: Asm) {
    Selectable(mp, cfg, order) && Inv(mp, order, s) && s.mi <= |order|
  }

  lemma Start(mp: Mempool, cfg: Config, order: seq<nat>)
    requires Selectable(mp, cfg, order)
    ensures LoopOk(mp, cfg, order, Reset) && Reaches(mp, cfg, order, Reset, [], Reset)
  {
    hide CanStick;
    ResetHoldsInv(mp, order);
  }

  /** What one more iteration keeps, reaches and lowers. */
  lemma StepFacts(mp: Mempool, cfg: Config, order: seq<nat>, s: Asm, ch: Choice, choices: seq<Choice>)
    requires LoopOk(mp, cfg, order, s) && ChoiceOk(mp, order, s, ch) && Reaches(mp, cfg, order, Reset, choices, s)
    ensures mp.Ok() && Inv(mp, order, s)
    ensures var r := Iterate(mp, cfg, order, s, ch);
            r.Continue? ==>
              && LoopOk(mp, cfg, order, r.next)
              && Reaches(mp, cfg, order, Reset, choices + [ch], r.next)
              && Lowers(mp, order, s, r.next)
  {
    hide Iterate, ChoiceOk, mp.Ok, BlockOk, ModifiedOk, Lowers, Stuck, Reaches;
    IterateKeepsInv(mp, cfg, order, s, ch);
    assert !Stuck(mp, cfg, order, s, ch);
    IterateLowersIff(mp, cfg, order, s, ch);
    ReachesOneMore(mp, cfg, order, Reset, choices, s, ch);
  }

  lemma StopsHere(mp: Mempool, cfg: Config, order: seq<nat>, s: Asm, ch: Choice, choices: seq<Choice>)
    requires LoopOk(mp, cfg, order, s) && Reaches(mp, cfg, order, Reset, choices, s)
    requires Finished(order, s) || (ch.tooCheap && !(s.mi < |order| && Skip(s, order[s.mi])))
    ensures Iterate(mp, cfg, order, s, ch) == Stopped && Inv(mp, order, s)
    ensures forall i | 0 <= i < |s.block| :: s.block[i] in mp.txs && mp.txs[s.block[i]].isFinal
    ensures (|| CoveredRun(mp, cfg, order, Reset, choices)
             || TidyRun(mp, cfg, order, Reset, choices)
             || ShieldedFit(mp, cfg))
            ==> WithinLimits(cfg, s)
  {
    assert Iterate(mp, cfg, order, s, ch) == Stopped;
    hide Iterate, Inv, Reaches, CoveredRun, TidyRun, ShieldedFit, WithinLimits, CanStick, mp.Ok;
    ResetRunsWithinLimits(mp, cfg, order, choices, s);
    OkHasParts(mp);
    ResetRunsAreFinal(mp, cfg, order, choices, s);
  }

  lemma OkHasParts(mp: Mempool)
    requires mp.Ok()
    ensures mp.GraphOk() && mp.CachedOk()
  {
  }

  lemma MembersKnown(mp: Mempool, s: Asm, x: nat, q: seq<nat>)
    requires mp.GraphOk() && x in mp.txs && SortedPackage(mp, Package(mp, s, x), q)
    ensures forall y | y in q :: y in mp.txs
  {
    forall y | y in q ensures y in mp.txs {
      assert y in AsSet(q);
    }
  }

  // ----- the modified table -----

  function Descendants(mp: Mempool, x: nat): set<nat> {
    set d | d in mp.txs && x in mp.Anc(d)
  }

  /** An entry charged less by one included ancestor. */
  function Charge(mp: Mempool, m: Mod, x: nat): Mod {
    Mod(m.size - mp.Size(x), m.sigops - mp.SigOps(x))
  }

  function ChargeAll(mp: Mempool, m: map<nat, Mod>, ds: set<nat>, x: nat): map<nat, Mod> {
    m + map d | d in ds :: Charge(mp, Base(mp, m, d), x)
  }

  /** `UpdatePackages` when only the members `done` of the package have been gone through. */
  ghost function UpdateFrom(mp: Mempool, modified: map<nat, Mod>, p: set<nat>, done: set<nat>): map<nat, Mod> {
    map d | d in mp.txs.Keys + modified.Keys && (d in modified || (d !in p && mp.Anc(d) * done != {})) ::
      if d !in p && d in mp.txs && mp.Anc(d) * done != {} then Reduced(mp, Base(mp, modified, d), mp.Anc(d) * done)
          else modified[d]
  }

  lemma ReducedOneMore(mp: Mempool, m: Mod, hit: set<nat>, x: nat)
    requires x !in hit
    ensures Reduced(mp, m, hit + {x}) == Charge(mp, Reduced(mp, m, hit), x)
    ensures Reduced(mp, m, {}) == m
  {
    SumAdd(hit, y => mp.Size(y), x);
    SumAdd(hit, y => mp.SigOps(y), x);
  }

  lemma UpdateOneMoreAt(mp: Mempool, modified: map<nat, Mod>, p: set<nat>, done: set<nat>, x: nat, d: nat)
    requires x in p && x !in done && mp.GraphOk()
    ensures var u := UpdateFrom(mp, modified, p, done);
            var v := UpdateFrom(mp, modified, p, done + {x});
            var w := ChargeAll(mp, u, Descendants(mp, x) - p, x);
            (d in v <==> d in w) && (d in v ==> v[d] == w[d])
  {
    var hit := mp.Anc(d) * done;
    if d in Descendants(mp, x) - p {
      assert mp.Anc(d) * (done + {x}) == hit + {x};
      ReducedOneMore(mp, Base(mp, modified, d), hit, x);
      ReducedOneMore(mp, Base(mp, modified, d), {}, x);
      if hit == {} {
        assert hit + {x} == {} + {x};
      }
    } else if d !in p {
      assert x !in mp.Anc(d);
      assert mp.Anc(d) * (done + {x}) == hit;
    }
  }

  lemma UpdateOneMore(mp: Mempool, modified: map<nat, Mod>, p: set<nat>, done: set<nat>, x: nat)
    requires x in p && x !in done && mp.GraphOk()
    ensures UpdateFrom(mp, modified, p, done + {x})
            == ChargeAll(mp, UpdateFrom(mp, modified, p, done), Descendants(mp, x) - p, x)
  {
    var v := UpdateFrom(mp, modified, p, done + {x});
    var w := ChargeAll(mp, UpdateFrom(mp, modified, p, done), Descendants(mp, x) - p, x);
    hide UpdateFrom, ChargeAll, Descendants;
    forall d ensures (d in v <==> d in w) && (d in v ==> v[d] == w[d]) {
      UpdateOneMoreAt(mp, modified, p, done, x, d);
    }
    assert v.Keys == w.Keys;
  }

  lemma ChargeOneMore(mp: Mempool, m: map<nat, Mod>, ds: set<nat>, d: nat, x: nat)
    requires d !in ds
    ensures var c := ChargeAll(mp, m, ds, x);
            && ChargeAll(mp, m, ds + {d}, x) == c[d := Charge(mp, Base(mp, m, d), x)]
            && (d in c <==> d in m) && (d in c ==> c[d] == m[d])
  {
  }

  /** Charges every descendant of `x` outside the package. */
  method ChargeDescendants(mp: Mempool, modified: map<nat, Mod>, p: set<nat>, x: nat) returns (m: map<nat, Mod>)
    ensures m == ChargeAll(mp, modified, Descendants(mp, x) - p, x)
  {
    m := modified;
    var ds := Descendants(mp, x);
    var todo := ds;
    while todo != {}
      invariant todo <= ds
      invariant m == ChargeAll(mp, modified, ds - todo - p, x)
    {
      var d :| d in todo;
      ChargeOneMore(mp, modified, ds - todo - p, d, x);
      hide ChargeAll;
      if d !in p {
        if d !in m {
          m := m[d := Charge(mp, Cached(mp, d), x)];
        } else {
          m := m[d := Charge(mp, m[d], x)];
        }
        assert ds - (todo - {d}) - p == (ds - todo - p) + {d};
      } else {
        assert ds - (todo - {d}) - p == ds - todo - p;
      }
      todo := todo - {d};
    }
    assert ds - todo - p == ds - p;
  }

  method UpdatePackagesForAdded(mp: Mempool, alreadyAdded: set<nat>, modified: map<nat, Mod>) returns (m: map<nat, Mod>)
    requires mp.GraphOk()
    ensures m == UpdatePackages(mp, modified, alreadyAdded)
  {
    m := modified;
    var todo := alreadyAdded;
    assert alreadyAdded - todo == {};
    assert UpdateFrom(mp, modified, alreadyAdded, {}) == modified;
    while todo != {}
      invariant todo <= alreadyAdded
      invariant m == UpdateFrom(mp, modified, alreadyAdded, alreadyAdded - todo)
    {
      var x :| x in todo;
      UpdateOneMore(mp, modified, alreadyAdded, alreadyAdded - todo, x);
      assert alreadyAdded - (todo - {x}) == alreadyAdded - todo + {x};
      m := ChargeDescendants(mp, m, alreadyAdded, x);
      todo := todo - {x};
    }
    assert alreadyAdded - todo == alreadyAdded;
    assert UpdateFrom(mp, modified, alreadyAdded, alreadyAdded) == UpdatePackages(mp, modified, alreadyAdded);
  }
}
