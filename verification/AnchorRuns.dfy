/**
 Whole runs of the Sapling anchor calls over a stack of caches, against a stack of flat maps; and the three
 ways in which the anchor calls of `src/coins.cpp` fall short of a plain map, each at states that calls on a
 new cache lead to.
 */
module AnchorRuns {
  import opened Options
  import opened ShieldedSpec

  // ----- the flat reference -----

  /**
   One map of visible anchors per layer and one best anchor.  A layer that has neither read nor set its best
   anchor does not know it: it shows the one below, and hands down none when it is flushed.
   */
  datatype Flat =
    | Ground(at: map<nat, Tree>, best: nat)
    | Layer(at: map<nat, Tree>, best: nat, knows: bool, below: Flat)

  datatype Op =
    | Push(tree: Tree)
    | Pop(newrt: nat)
    | ReadAnchor(rt: nat)
    | ReadBest
    | FlushTop
    | Open
    | Discard

  function Seen(at: map<nat, Tree>, rt: nat): Option<Tree> {
    if rt in at then Some(at[rt]) else None
  }

  /** Reading the best anchor makes it known in every layer down to the first that knows it. */
  function Know(f: Flat): Flat {
    if f.Ground? || f.knows then f else Layer(f.at, f.best, true, Know(f.below))
  }

  /** A best anchor is set; a null one is as good as none. */
  function WithBest(at: map<nat, Tree>, best: nat, below: Flat): Flat {
    if best != 0 then Layer(at, best, true, below) else Layer(at, below.best, false, below)
  }

  /** What the layer below becomes when a layer is flushed into it. */
  function Written(root: Tree -> nat, f: Flat): (r: Flat)
    requires f.Layer?
    ensures r.Layer? == f.below.Layer?
  {
    match f.below
    case Ground(_, best) => Ground(f.at[root(EmptyTree) := EmptyTree], if f.knows then f.best else best)
    case Layer(_, _, _, b) => Layer(f.at, if f.knows then f.best else b.best, f.knows, b)
  }

  predicate Legal(f: Flat, op: Op) {
    match op
    case Pop(newrt) => f.Layer? && (f.best == newrt || f.best in f.at)
    case Push(_) => f.Layer?
    case FlushTop => f.Layer?
    case Discard => f.Layer?
    case _ => true
  }

  function StepFlat(root: Tree -> nat, f: Flat, op: Op): Flat
    requires Legal(f, op)
  {
    match op
    case Push(tree) =>
      var k := Know(f);
      if k.best == root(tree) then k else WithBest(k.at[root(tree) := tree], root(tree), k.below)
    case Pop(newrt) =>
      var k := Know(f);
      if k.best == newrt then k else WithBest(k.at - {k.best}, newrt, k.below)
    case ReadAnchor(_) => f
    case ReadBest => Know(f)
    case FlushTop =>
      var b := Written(root, f);
      Layer(if b.Ground? then b.at else f.at, if f.knows then f.best else b.best, f.knows, b)
    case Open => Layer(f.at, f.best, false, f)
    case Discard => f.below
  }

  /** One call on the stack; `None` where there is no cache to act on or the code's assertion fails. */
  function StepView(root: Tree -> nat, v: AnchorView, op: Op): Option<AnchorView> {
    match op
    case ReadAnchor(rt) => Some(TouchAnchor(root, v, rt))
    case ReadBest => Some(TouchBest(root, v))
    case Open => Some(AnchorCache(map[], 0, v))
    case Push(tree) => if v.AnchorCache? then Some(PushAnchor(root, v, tree)) else None
    case Pop(newrt) => if v.AnchorCache? then PopAnchor(root, v, newrt) else None
    case FlushTop => if v.AnchorCache? then Some(AnchorFlush(root, v)) else None
    case Discard => if v.AnchorCache? then Some(v.base) else None
  }

  // ----- refinement, step by step -----

  ghost predicate SameHere(root: Tree -> nat, v: AnchorView, f: Flat) {
    && (forall rt :: AnchorAt(root, v, rt) == Seen(f.at, rt))
    && BestAnchor(root, v) == f.best
    && v.AnchorCache? == f.Layer?
    && (v.AnchorCache? ==> (v.best != 0) == f.knows)
  }

  ghost predicate Refines(root: Tree -> nat, v: AnchorView, f: Flat)
    decreases v
  {
    SameHere(root, v, f) && (v.AnchorCache? ==> Refines(root, v.base, f.below))
  }

  lemma {:induction false} BestIsNotNull(root: Tree -> nat, v: AnchorView)
    requires GoodRoot(root)
    ensures BestAnchor(root, v) != 0
  {
    if v.AnchorCache? {
      BestIsNotNull(root, v.base);
    }
  }

  lemma {:induction false} TouchAnchorRefines(root: Tree -> nat, v: AnchorView, f: Flat, rt: nat)
    requires AnchorInv(root, v) && Refines(root, v, f)
    ensures Refines(root, TouchAnchor(root, v, rt), f)
    decreases v
  {
    TouchAnchorSpec(root, v, rt);
    if v.AnchorCache? {
      TouchAnchorRefines(root, v.base, f.below, rt);
    }
  }

  lemma {:induction false} TouchBestRefines(root: Tree -> nat, v: AnchorView, f: Flat)
    requires GoodRoot(root) && AnchorInv(root, v) && Refines(root, v, f)
    ensures Refines(root, TouchBest(root, v), Know(f))
    decreases v
  {
    TouchBestSpec(root, v);
    if v.AnchorCache? && v.best == 0 {
      BestIsNotNull(root, v.base);
      TouchBestRefines(root, v.base, f.below);
    }
  }

  lemma PushRefines(root: Tree -> nat, v: AnchorView, f: Flat, tree: Tree)
    requires GoodRoot(root) && AnchorInv(root, v) && Refines(root, v, f) && v.AnchorCache?
    ensures AnchorInv(root, PushAnchor(root, v, tree))
    ensures Refines(root, PushAnchor(root, v, tree), StepFlat(root, f, Push(tree)))
  {
    PushAnchorSpec(root, v, tree);
    TouchBestRefines(root, v, f);
    var w, g := PushAnchor(root, v, tree), StepFlat(root, f, Push(tree));
    hide AnchorInv, TouchBest;
    forall rt ensures AnchorAt(root, w, rt) == Seen(g.at, rt) {
      assert AnchorAt(root, v, rt) == Seen(f.at, rt);
    }
  }

  lemma PopRefines(root: Tree -> nat, v: AnchorView, f: Flat, newrt: nat)
    requires GoodRoot(root) && AnchorInv(root, v) && Refines(root, v, f) && Legal(f, Pop(newrt))
    ensures PopAnchor(root, v, newrt).Some? && AnchorInv(root, PopAnchor(root, v, newrt).value)
    ensures Refines(root, PopAnchor(root, v, newrt).value, StepFlat(root, f, Pop(newrt)))
  {
    PopAnchorSpec(root, v, newrt);
    TouchBestRefines(root, v, f);
    TouchBestSpec(root, v);
    TouchAnchorRefines(root, TouchBest(root, v), Know(f), f.best);
    assert AnchorAt(root, v, f.best) == Seen(f.at, f.best);
    var w, g := PopAnchor(root, v, newrt).value, StepFlat(root, f, Pop(newrt));
    hide AnchorInv, TouchBest, TouchAnchor;
    forall rt ensures AnchorAt(root, w, rt) == Seen(g.at, rt) {
      assert AnchorAt(root, v, rt) == Seen(f.at, rt);
    }
  }

  lemma RefinesParts(root: Tree -> nat, v: AnchorView, f: Flat)
    requires Refines(root, v, f)
    ensures SameHere(root, v, f) && (v.AnchorCache? ==> Refines(root, v.base, f.below))
  {
  }

  lemma FlushIntoDbRefines(root: Tree -> nat, v: AnchorView, f: Flat)
    requires GoodRoot(root) && AnchorInv(root, v) && Refines(root, v, f) && v.AnchorCache? && v.base.AnchorDb?
    ensures AnchorInv(root, AnchorFlush(root, v))
    ensures Refines(root, AnchorFlush(root, v), StepFlat(root, f, Op.FlushTop))
  {
    var w, g := AnchorFlush(root, v), StepFlat(root, f, Op.FlushTop);
    RefinesParts(root, v.base, f.below);
    AnchorDbMergeSpec(root, v.base, v.entries, v.best);
    forall rt ensures AnchorAt(root, w, rt) == Seen(g.at, rt) && AnchorAt(root, w.base, rt) == Seen(g.below.at, rt) {
      assert AnchorAt(root, v, rt) == Seen(f.at, rt);
    }
  }

  lemma FlushIntoCacheRefines(root: Tree -> nat, v: AnchorView, f: Flat)
    requires GoodRoot(root) && AnchorInv(root, v) && Refines(root, v, f) && v.AnchorCache? && v.base.AnchorCache?
    ensures AnchorInv(root, AnchorFlush(root, v))
    ensures Refines(root, AnchorFlush(root, v), StepFlat(root, f, Op.FlushTop))
  {
    var w, g := AnchorFlush(root, v), StepFlat(root, f, Op.FlushTop);
    AnchorMergeSpec(root, v.base, v.entries, v.best);
    forall rt ensures AnchorAt(root, w, rt) == Seen(g.at, rt) && AnchorAt(root, w.base, rt) == Seen(g.below.at, rt) {
      assert AnchorAt(root, v, rt) == Seen(f.at, rt);
    }
    RefinesParts(root, v.base, f.below);
    RefinesParts(root, v.base.base, f.below.below);
    assert Refines(root, w.base, g.below);
  }

  lemma FlushRefines(root: Tree -> nat, v: AnchorView, f: Flat)
    requires GoodRoot(root) && AnchorInv(root, v) && Refines(root, v, f) && v.AnchorCache?
    ensures AnchorInv(root, AnchorFlush(root, v))
    ensures Refines(root, AnchorFlush(root, v), StepFlat(root, f, Op.FlushTop))
  {
    hide AnchorInv, AnchorFlush, GoodRoot, Refines;
    RefinesParts(root, v, f);
    if v.base.AnchorDb? {
      FlushIntoDbRefines(root, v, f);
    } else {
      FlushIntoCacheRefines(root, v, f);
    }
  }

  /** A call goes through exactly when the flat reference allows it, and then the two agree again. */
  lemma StepRefines(root: Tree -> nat, v: AnchorView, f: Flat, op: Op)
    requires GoodRoot(root) && AnchorInv(root, v) && Refines(root, v, f)
    ensures StepView(root, v, op).Some? <==> Legal(f, op)
    ensures Legal(f, op) ==>
              && AnchorInv(root, StepView(root, v, op).value)
              && Refines(root, StepView(root, v, op).value, StepFlat(root, f, op))
  {
    RefinesParts(root, v, f);
    hide GoodRoot, PushAnchor, PopAnchor, AnchorFlush;
    match op {
      case Push(tree) =>
        if v.AnchorCache? {
          PushRefines(root, v, f, tree);
        }
      case Pop(newrt) =>
        if v.AnchorCache? {
          PopAnchorSpec(root, v, newrt);
          assert AnchorAt(root, v, f.best) == Seen(f.at, f.best);
          if Legal(f, op) {
            PopRefines(root, v, f, newrt);
          }
        }
      case ReadAnchor(rt) =>
        TouchAnchorSpec(root, v, rt);
        TouchAnchorRefines(root, v, f, rt);
      case ReadBest =>
        TouchBestSpec(root, v);
        TouchBestRefines(root, v, f);
      case FlushTop =>
        if v.AnchorCache? {
          FlushRefines(root, v, f);
        }
      case Open =>
      case Discard =>
    }
  }

  // ----- whole runs -----

  predicate LegalRun(root: Tree -> nat, f: Flat, ops: seq<Op>)
    decreases |ops|
  {
    ops == [] || (Legal(f, ops[0]) && LegalRun(root, StepFlat(root, f, ops[0]), ops[1..]))
  }

  function RunFlat(root: Tree -> nat, f: Flat, ops: seq<Op>): Flat
    requires LegalRun(root, f, ops)
    decreases |ops|
  {
    if ops == [] then f else RunFlat(root, StepFlat(root, f, ops[0]), ops[1..])
  }

  function RunView(root: Tree -> nat, v: AnchorView, ops: seq<Op>): Option<AnchorView>
    decreases |ops|
  {
    if ops == [] then Some(v)
    else
      match StepView(root, v, ops[0])
      case None => None
      case Some(w) => RunView(root, w, ops[1..])
  }

  /**
   Over any depth, a run of pushes, pops, reads, flushes, new and dropped caches goes through exactly when
   the flat reference allows every call, and then each layer shows exactly the anchors and the best anchor
   of its flat map.
   */
  lemma {:induction false} RunRefines(root: Tree -> nat, v: AnchorView, f: Flat, ops: seq<Op>)
    requires GoodRoot(root) && AnchorInv(root, v) && Refines(root, v, f)
    ensures RunView(root, v, ops).Some? <==> LegalRun(root, f, ops)
    ensures LegalRun(root, f, ops) ==>
              && AnchorInv(root, RunView(root, v, ops).value)
              && Refines(root, RunView(root, v, ops).value, RunFlat(root, f, ops))
    decreases |ops|
  {
    hide AnchorInv, Refines, GoodRoot, StepFlat, StepView, Legal;
    if ops != [] {
      StepRefines(root, v, f, ops[0]);
      if Legal(f, ops[0]) {
        RunRefines(root, StepView(root, v, ops[0]).value, StepFlat(root, f, ops[0]), ops[1..]);
      }
    }
  }

  // ----- where a plain map would do better -----

  /** A new cache over a database that has stored nothing. */
  const NewCache := AnchorCache(map[], 0, AnchorDb(map[], 0))

  /** Pushing an old tree again and popping back hides the old anchor, whichever two trees they are. */
  lemma PushAgainThenPopLoses(root: Tree -> nat, a: Tree, b: Tree)
    requires GoodRoot(root) && a != b
    ensures var v := PushAnchor(root, PushAnchor(root, NewCache, a), b);
            && AnchorAt(root, v, root(a)) == Some(a) && BestAnchor(root, v) == root(b)
            && var w := PopAnchor(root, PushAnchor(root, v, a), root(b));
               w.Some? && AnchorAt(root, w.value, root(a)) == None && !SameAnchors(root, w.value, v)
  {
    hide PushAnchor, PopAnchor;
    var u := PushAnchor(root, NewCache, a);
    var v := PushAnchor(root, u, b);
    PushAnchorSpec(root, NewCache, a);
    PushAnchorSpec(root, u, b);
    PushAnchorSpec(root, v, a);
    PushThenPop(root, v, a);
    PopAnchorSpec(root, PushAnchor(root, v, a), root(b));
    assert AnchorAt(root, NewCache, root(EmptyTree)) == Some(EmptyTree);
  }

  /** Once the empty tree's anchor is popped, flushing into the database brings it back. */
  lemma FlushBringsBackTheEmptyRoot(root: Tree -> nat, newrt: nat)
    requires GoodRoot(root) && newrt != root(EmptyTree)
    ensures PopAnchor(root, NewCache, newrt).Some?
    ensures var v := PopAnchor(root, NewCache, newrt).value;
            && AnchorAt(root, v, root(EmptyTree)) == None
            && AnchorAt(root, AnchorFlush(root, v), root(EmptyTree)) == Some(EmptyTree)
  {
    PopAnchorSpec(root, NewCache, newrt);
    var v := PopAnchor(root, NewCache, newrt).value;
    AnchorDbMergeSpec(root, v.base, v.entries, v.best);
  }

  /** A cache that never asked for the best anchor wipes its base's when it is flushed. */
  lemma FlushWipesTheBestAnchor(root: Tree -> nat, tree: Tree)
    requires GoodRoot(root) && tree != EmptyTree
    ensures var v := AnchorCache(map[], 0, PushAnchor(root, NewCache, tree));
            && BestAnchor(root, v) == root(tree)
            && BestAnchor(root, AnchorFlush(root, v)) == root(EmptyTree) != root(tree)
  {
    PushAnchorSpec(root, NewCache, tree);
  }
}
