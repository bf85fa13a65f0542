/**
 The Sapling maps of `CCoinsViewCache` as an object over a backing view, refining `ShieldedSpec`.  The
 counter `cachedAnchorsUsage` is what the anchors' trees add to the one memory counter of the code; what the
 coins add to it is the counter of `CoinsCache`.
 */
module ShieldedCache {
  import opened Options
  import opened ShieldedSpec
  import opened Maps

  class ShieldedDb {
    var nullifiers: set<nat>
    var anchors: map<nat, Tree>
    var best: nat

    constructor (nullifiers: set<nat>, anchors: map<nat, Tree>, best: nat)
      ensures this.nullifiers == nullifiers && this.anchors == anchors && this.best == best
    {
      this.nullifiers, this.anchors, this.best := nullifiers, anchors, best;
    }

    method BatchWriteNullifiers(mapNullifiers: NfMap)
      modifies this`nullifiers
      ensures nullifiers == NfDbMerged(mapNullifiers, old(nullifiers))
    {
      var todo := mapNullifiers.Keys;
      while todo != {}
        invariant todo <= mapNullifiers.Keys
        invariant nullifiers == NfDbMerged(mapNullifiers - todo, old(nullifiers))
      {
        var nf :| nf in todo;
        if mapNullifiers[nf].isDirty {
          nullifiers := if mapNullifiers[nf].entered then nullifiers + {nf} else nullifiers - {nf};
        }
        todo := todo - {nf};
      }
      assert mapNullifiers - todo == mapNullifiers;
    }

    method BatchWriteAnchors(root: Tree -> nat, mapAnchors: AnchorMap)
      modifies this`anchors
      ensures anchors == AnchorDbMerged(root, mapAnchors, old(anchors))
    {
      var todo := mapAnchors.Keys;
      assert mapAnchors - todo == map[];
      assert anchors == AnchorDbMerged(root, map[], anchors);
      while todo != {}
        invariant todo <= mapAnchors.Keys
        invariant anchors == AnchorDbMerged(root, mapAnchors - todo, old(anchors))
      {
        var rt :| rt in todo;
        var e := mapAnchors[rt];
        if e.isDirty {
          if !e.entered {
            anchors := anchors - {rt};
          } else if rt != root(EmptyTree) {
            anchors := anchors[rt := e.tree];
          }
        }
        AnchorDbMergeOneMore(root, mapAnchors - todo, old(anchors), rt, e);
        TakeOne(mapAnchors, todo, rt);
        todo := todo - {rt};
      }
      assert mapAnchors - todo == mapAnchors;
    }
  }

  datatype Backend = OnDb(db: ShieldedDb) | OnCache(cache: ShieldedViewCache)

  /** Dynamic memory of a cached anchor, given the memory of a tree. */
  ghost function AnchorUsage(usage: Tree -> nat): (nat, AnchorEntry) -> int {
    (rt: nat, e: AnchorEntry) => usage(e.tree) as int
  }

  class ShieldedViewCache {
    const base: Backend
    const root: Tree -> nat
    const usage: Tree -> nat
    ghost const Repr: set<object>
    ghost const depth: nat

    var cacheNullifiers: NfMap
    var cacheAnchors: AnchorMap
    var hashAnchor: nat
    var cachedAnchorsUsage: int

    ghost predicate Valid()
      decreases depth
    {
      match base
      case OnDb(db) => Repr == {this, db} && depth == 0
      case OnCache(c) =>
        && depth == c.depth + 1 && c.Valid() && c.root == root
        && this !in c.Repr && Repr == {this} + c.Repr
    }

    ghost function BelowRepr(): set<object> {
      match base
      case OnDb(db) => {db}
      case OnCache(c) => c.Repr
    }

    ghost function NfBelow(): NfView
      requires Valid()
      reads BelowRepr()
      decreases depth, 0
    {
      match base
      case OnDb(db) => NfDb(db.nullifiers)
      case OnCache(c) => c.Nullifiers()
    }

    ghost function AnchorBelow(): AnchorView
      requires Valid()
      reads BelowRepr()
      decreases depth, 0
    {
      match base
      case OnDb(db) => AnchorDb(db.anchors, db.best)
      case OnCache(c) => c.Anchors()
    }

    ghost function Nullifiers(): NfView
      requires Valid()
      reads Repr
      decreases depth, 1
    {
      NfCache(cacheNullifiers, NfBelow())
    }

    ghost function Anchors(): AnchorView
      requires Valid()
      reads Repr
      decreases depth, 1
    {
      AnchorCache(cacheAnchors, hashAnchor, AnchorBelow())
    }

    /** Every count of anchor memory from here down is exact. */
    ghost predicate Accounted()
      requires Valid()
      reads Repr
      decreases depth
    {
      && cachedAnchorsUsage == Total(cacheAnchors, AnchorUsage(usage))
      && (base.OnCache? ==> base.cache.Accounted())
    }

    constructor (base: Backend, root: Tree -> nat, usage: Tree -> nat)
      requires base.OnCache? ==> base.cache.Valid() && base.cache.root == root
      ensures Valid() && this.base == base && this.root == root && this.usage == usage && Repr == {this} + BelowRepr()
      ensures (base.OnCache? ==> base.cache.Accounted()) ==> Accounted()
      ensures Nullifiers() == NfCache(map[], NfBelow())
      ensures Anchors() == AnchorCache(map[], 0, AnchorBelow())
    {
      this.base := base;
      this.root := root;
      this.usage := usage;
      cacheNullifiers, cacheAnchors, hashAnchor, cachedAnchorsUsage := map[], map[], 0, 0;
      ghost var below: set<object> := match base case OnDb(db) => {db} case OnCache(c) => c.Repr;
      Repr := {this} + below;
      depth := match base case OnDb(_) => 0 case OnCache(c) => c.depth + 1;
    }

    method GetNullifier(nf: nat) returns (spent: bool)
      requires Valid()
      modifies Repr
      ensures spent == ShieldedSpec.GetNullifier(old(Nullifiers()), nf)
      ensures Nullifiers() == TouchNullifier(old(Nullifiers()), nf)
      ensures old(Accounted()) ==> Accounted()
      ensures Anchors() == old(Anchors())
      decreases depth
    {
      if nf in cacheNullifiers {
        return cacheNullifiers[nf].entered;
      }
      match base {
        case OnDb(db) => spent := nf in db.nullifiers;
        case OnCache(c) => spent := c.GetNullifier(nf);
      }
      cacheNullifiers := cacheNullifiers[nf := NfEntry(spent, false)];
    }

    method SetNullifiers(nfs: seq<nat>, spent: bool)
      requires Valid()
      modifies this`cacheNullifiers
      ensures Nullifiers() == ShieldedSpec.SetNullifiers(old(Nullifiers()), nfs, spent)
      ensures old(Accounted()) ==> Accounted()
      ensures Anchors() == old(Anchors())
    {
      for i := 0 to |nfs|
        modifies this`cacheNullifiers
        invariant cacheNullifiers == old(cacheNullifiers) + Marked(nfs[..i], spent)
      {
        MarkOneMore(old(cacheNullifiers), nfs, i, spent);
        cacheNullifiers := cacheNullifiers[nfs[i] := NfEntry(spent, true)];
      }
      assert nfs[..|nfs|] == nfs;
    }

    method GetSaplingAnchorAt(rt: nat) returns (tree: Option<Tree>)
      requires Valid()
      modifies Repr
      ensures tree == AnchorAt(root, old(Anchors()), rt)
      ensures Anchors() == TouchAnchor(root, old(Anchors()), rt)
      ensures old(Accounted()) ==> Accounted()
      ensures Nullifiers() == old(Nullifiers())
      decreases depth
    {
      if rt in cacheAnchors {
        return if cacheAnchors[rt].entered then Some(cacheAnchors[rt].tree) else None;
      }
      match base {
        case OnDb(db) =>
          tree := if rt == root(EmptyTree) then Some(EmptyTree)
                  else if rt in db.anchors then Some(db.anchors[rt]) else None;
        case OnCache(c) => tree := c.GetSaplingAnchorAt(rt);
      }
      if tree.Some? {
        TotalInsert(cacheAnchors, AnchorUsage(usage), rt, AnchorEntry(true, tree.value, false));
        cacheAnchors := cacheAnchors[rt := AnchorEntry(true, tree.value, false)];
        cachedAnchorsUsage := cachedAnchorsUsage + usage(tree.value);
      }
    }

    method GetBestAnchor() returns (best: nat)
      requires Valid()
      modifies Repr
      ensures best == BestAnchor(root, old(Anchors())) == hashAnchor
      ensures Anchors() == TouchBest(root, old(Anchors()))
      ensures old(Accounted()) ==> Accounted()
      ensures Nullifiers() == old(Nullifiers())
      decreases depth
    {
      if hashAnchor == 0 {
        match base {
          case OnDb(db) => hashAnchor := if db.best != 0 then db.best else root(EmptyTree);
          case OnCache(c) =>
            var b := c.GetBestAnchor();
            hashAnchor := b;
        }
      }
      best := hashAnchor;
    }

    method PushAnchor(tree: Tree)
      requires Valid()
      modifies Repr
      ensures Anchors() == ShieldedSpec.PushAnchor(root, old(Anchors()), tree)
      ensures GoodRoot(root) && old(AnchorInv(root, Anchors()) && Accounted()) ==> Accounted()
      ensures Nullifiers() == old(Nullifiers())
    {
      var newrt := root(tree);
      var currentRoot := GetBestAnchor();
      if currentRoot != newrt {
        TotalInsert(cacheAnchors, AnchorUsage(usage), newrt, AnchorEntry(true, tree, true));
        if newrt !in cacheAnchors {
          cachedAnchorsUsage := cachedAnchorsUsage + usage(tree);
        }
        cacheAnchors := cacheAnchors[newrt := AnchorEntry(true, tree, true)];
        hashAnchor := newrt;
      }
    }

    /** `ok` is false where the code asserts that the current best anchor exists. */
    method PopAnchor(newrt: nat) returns (ok: bool)
      requires Valid()
      modifies Repr
      ensures ok == ShieldedSpec.PopAnchor(root, old(Anchors()), newrt).Some?
      ensures ok ==> Anchors() == ShieldedSpec.PopAnchor(root, old(Anchors()), newrt).value
      ensures old(Accounted()) ==> Accounted()
      ensures Nullifiers() == old(Nullifiers())
    {
      var currentRoot := GetBestAnchor();
      if currentRoot != newrt {
        var tree := GetSaplingAnchorAt(currentRoot);
        if tree.None? {
          return false;
        }
        var popped := AnchorEntry(false, cacheAnchors[currentRoot].tree, true);
        TotalInsert(cacheAnchors, AnchorUsage(usage), currentRoot, popped);
        cacheAnchors := cacheAnchors[currentRoot := popped];
        hashAnchor := newrt;
      }
      ok := true;
    }

    method BatchWriteNullifiers(mapNullifiers: NfMap)
      requires Valid()
      modifies this`cacheNullifiers
      ensures cacheNullifiers == NfMerged(mapNullifiers, old(cacheNullifiers))
    {
      var todo := mapNullifiers.Keys;
      assert mapNullifiers - todo == map[];
      assert cacheNullifiers == NfMerged(map[], cacheNullifiers);
      while todo != {}
        invariant todo <= mapNullifiers.Keys
        invariant cacheNullifiers == NfMerged(mapNullifiers - todo, old(cacheNullifiers))
      {
        var nf :| nf in todo;
        var e := mapNullifiers[nf];
        if e.isDirty {
          if nf !in cacheNullifiers || cacheNullifiers[nf].entered != e.entered {
            cacheNullifiers := cacheNullifiers[nf := NfEntry(e.entered, true)];
          }
        }
        NfMergeOneMore(mapNullifiers - todo, old(cacheNullifiers), nf, e);
        TakeOne(mapNullifiers, todo, nf);
        todo := todo - {nf};
      }
      assert mapNullifiers - todo == mapNullifiers;
    }

    method BatchWriteAnchors(mapAnchors: AnchorMap)
      requires Valid()
      modifies this`cacheAnchors, this`cachedAnchorsUsage
      ensures cacheAnchors == AnchorMerged(mapAnchors, old(cacheAnchors))
      ensures old(Accounted()) ==> Accounted()
    {
      var todo := mapAnchors.Keys;
      assert mapAnchors - todo == map[];
      assert cacheAnchors == AnchorMerged(map[], cacheAnchors);
      while todo != {}
        invariant todo <= mapAnchors.Keys
        invariant cacheAnchors == AnchorMerged(mapAnchors - todo, old(cacheAnchors))
        invariant old(Accounted()) ==> Accounted()
      {
        var rt :| rt in todo;
        var e := mapAnchors[rt];
        if e.isDirty {
          if rt !in cacheAnchors {
            TotalInsert(cacheAnchors, AnchorUsage(usage), rt, AnchorEntry(e.entered, e.tree, true));
            cacheAnchors := cacheAnchors[rt := AnchorEntry(e.entered, e.tree, true)];
            cachedAnchorsUsage := cachedAnchorsUsage + usage(e.tree);
          } else if cacheAnchors[rt].entered != e.entered {
            var changed := AnchorEntry(e.entered, cacheAnchors[rt].tree, true);
            TotalInsert(cacheAnchors, AnchorUsage(usage), rt, changed);
            cacheAnchors := cacheAnchors[rt := changed];
          }
        }
        AnchorMergeOneMore(mapAnchors - todo, old(cacheAnchors), rt, e);
        TakeOne(mapAnchors, todo, rt);
        todo := todo - {rt};
      }
      assert mapAnchors - todo == mapAnchors;
    }

    method BatchWrite(mapAnchors: AnchorMap, mapNullifiers: NfMap, hashAnchorIn: nat)
      requires Valid()
      modifies this
      ensures Nullifiers() == NfBatchWrite(old(Nullifiers()), mapNullifiers)
      ensures Anchors() == AnchorBatchWrite(root, old(Anchors()), mapAnchors, hashAnchorIn)
      ensures old(Accounted()) ==> Accounted()
    {
      BatchWriteAnchors(mapAnchors);
      BatchWriteNullifiers(mapNullifiers);
      hashAnchor := hashAnchorIn;
    }

    method Flush()
      requires Valid()
      modifies Repr
      ensures Nullifiers() == NfFlush(old(Nullifiers()))
      ensures Anchors() == AnchorFlush(root, old(Anchors()))
      ensures old(Accounted()) ==> Accounted()
    {
      match base {
        case OnDb(db) =>
          db.BatchWriteAnchors(root, cacheAnchors);
          db.BatchWriteNullifiers(cacheNullifiers);
          if hashAnchor != 0 {
            db.best := hashAnchor;
          }
        case OnCache(c) =>
          c.BatchWrite(cacheAnchors, cacheNullifiers, hashAnchor);
      }
      cacheAnchors := map[];
      cacheNullifiers := map[];
      cachedAnchorsUsage := 0;
    }
  }

  lemma MarkOneMore(entries: NfMap, nfs: seq<nat>, i: nat, spent: bool)
    requires i < |nfs|
    ensures (entries + Marked(nfs[..i], spent))[nfs[i] := NfEntry(spent, true)]
            == entries + Marked(nfs[..i + 1], spent)
  {
    assert nfs[..i + 1] == nfs[..i] + [nfs[i]];
  }

  lemma AnchorDbMergeOneMore(root: Tree -> nat, done: AnchorMap, anchors: map<nat, Tree>, rt: nat, e: AnchorEntry)
    requires rt !in done
    ensures AnchorDbMerged(root, done[rt := e], anchors)
            == if !e.isDirty then AnchorDbMerged(root, done, anchors)
               else if !e.entered then AnchorDbMerged(root, done, anchors) - {rt}
               else if rt != root(EmptyTree) then AnchorDbMerged(root, done, anchors)[rt := e.tree]
               else AnchorDbMerged(root, done, anchors)
  {
  }

  lemma NfMergeOneMore(done: NfMap, parent: NfMap, nf: nat, e: NfEntry)
    requires nf !in done
    ensures NfMerged(done[nf := e], parent)
            == if e.isDirty && (nf !in parent || parent[nf].entered != e.entered)
               then NfMerged(done, parent)[nf := NfEntry(e.entered, true)]
               else NfMerged(done, parent)
  {
  }

  lemma AnchorMergeOneMore(done: AnchorMap, parent: AnchorMap, rt: nat, e: AnchorEntry)
    requires rt !in done
    ensures AnchorMerged(done[rt := e], parent)
            == if e.isDirty && rt !in parent then AnchorMerged(done, parent)[rt := AnchorEntry(e.entered, e.tree, true)]
               else if e.isDirty && parent[rt].entered != e.entered
               then AnchorMerged(done, parent)[rt := AnchorEntry(e.entered, parent[rt].tree, true)]
               else AnchorMerged(done, parent)
  {
  }
}
