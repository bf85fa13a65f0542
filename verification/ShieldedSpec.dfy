/**
 The Sapling half of the view stack of `src/coins.cpp`, as values: nullifiers, anchors and the best
 anchor, each cached per layer over a database.

 A commitment tree is identified by its root.  The root function is a parameter; the laws that need it
 ask that distinct trees have distinct, non-null roots.
 */
module ShieldedSpec {
  import opened Options

  // ----- nullifiers -----

  datatype NfEntry = NfEntry(entered: bool, isDirty: bool)

  type NfMap = map<nat, NfEntry>

  datatype NfView =
    | NfDb(spent: set<nat>)
    | NfCache(entries: NfMap, base: NfView)

  predicate GetNullifier(v: NfView, nf: nat) {
    match v
    case NfDb(spent) => nf in spent
    case NfCache(entries, base) => if nf in entries then entries[nf].entered else GetNullifier(base, nf)
  }

  /** The stack after a read: every layer that asked its base now remembers the answer. */
  function TouchNullifier(v: NfView, nf: nat): NfView {
    match v
    case NfDb(_) => v
    case NfCache(entries, base) =>
      if nf in entries then v
      else NfCache(entries[nf := NfEntry(GetNullifier(base, nf), false)], TouchNullifier(base, nf))
  }

  function Marked(nfs: seq<nat>, spent: bool): NfMap {
    map nf | nf in nfs :: NfEntry(spent, true)
  }

  /** Marks a transaction's nullifiers spent or unspent. */
  function SetNullifiers(v: NfView, nfs: seq<nat>, spent: bool): (r: NfView)
    requires v.NfCache?
    ensures r.NfCache? && r.base == v.base
  {
    NfCache(v.entries + Marked(nfs, spent), v.base)
  }

  function NfMergedAt(child: NfMap, parent: NfMap, nf: nat): NfEntry
    requires nf in child || nf in parent
    requires nf in child && !child[nf].isDirty ==> nf in parent
  {
    if nf !in child || !child[nf].isDirty then parent[nf]
    else if nf !in parent then NfEntry(child[nf].entered, true)
    else if parent[nf].entered != child[nf].entered then NfEntry(child[nf].entered, true)
    else parent[nf]
  }

  function NfMerged(child: NfMap, parent: NfMap): NfMap {
    map nf | nf in child.Keys + parent.Keys && (nf in parent || child[nf].isDirty) :: NfMergedAt(child, parent, nf)
  }

  function NfDbMerged(child: NfMap, spent: set<nat>): set<nat> {
    (set nf | nf in spent && !(nf in child && child[nf].isDirty)) +
    (set nf | nf in child && child[nf].isDirty && child[nf].entered)
  }

  function NfBatchWrite(v: NfView, child: NfMap): NfView {
    match v
    case NfDb(spent) => NfDb(NfDbMerged(child, spent))
    case NfCache(entries, base) => NfCache(NfMerged(child, entries), base)
  }

  function NfFlush(v: NfView): (r: NfView)
    requires v.NfCache?
    ensures r.NfCache?
  {
    NfCache(map[], NfBatchWrite(v.base, v.entries))
  }

  ghost predicate NfInv(v: NfView) {
    v.NfCache? ==>
      && NfInv(v.base)
      && forall nf | nf in v.entries && !v.entries[nf].isDirty :: v.entries[nf].entered == GetNullifier(v.base, nf)
  }

  lemma {:induction false} TouchNullifierSpec(v: NfView, nf: nat)
    requires NfInv(v)
    ensures NfInv(TouchNullifier(v, nf))
    ensures forall k :: GetNullifier(TouchNullifier(v, nf), k) == GetNullifier(v, k)
  {
    if v.NfCache? && nf !in v.entries {
      TouchNullifierSpec(v.base, nf);
    }
  }

  lemma NfBatchWriteSpec(v: NfView, child: NfMap)
    requires NfInv(v)
    requires forall nf | nf in child && !child[nf].isDirty :: child[nf].entered == GetNullifier(v, nf)
    ensures NfInv(NfBatchWrite(v, child))
    ensures forall nf :: GetNullifier(NfBatchWrite(v, child), nf)
                         == if nf in child then child[nf].entered else GetNullifier(v, nf)
  {
    if v.NfCache? {
      var m := NfMerged(child, v.entries);
      forall nf
        ensures GetNullifier(NfCache(m, v.base), nf) == if nf in child then child[nf].entered else GetNullifier(v, nf)
        ensures nf in m && !m[nf].isDirty ==> m[nf].entered == GetNullifier(v.base, nf)
      {
        if nf in m {
          assert m[nf] == NfMergedAt(child, v.entries, nf);
        }
      }
    }
  }

  /** Marking what the parent has marked already, and flushing it, leaves the parent as it was. */
  lemma AgreeingMarksChangeNothing(parent: NfView, nfs: seq<nat>, spent: bool)
    requires parent.NfCache?
    requires forall nf | nf in nfs :: nf in parent.entries && parent.entries[nf].entered == spent
    ensures NfFlush(SetNullifiers(NfCache(map[], parent), nfs, spent)).base == parent
  {
    var none: NfMap := map[];
    assert NfMerged(none + Marked(nfs, spent), parent.entries) == parent.entries;
  }

  /** One set of spent nullifiers per layer, with no caching. */
  datatype NfFlat =
    | NfGround(spent: set<nat>)
    | NfLayer(spent: set<nat>, below: NfFlat)

  datatype NfOp =
    | Mark(nfs: seq<nat>, spentNow: bool)
    | Query(nf: nat)
    | FlushTop
    | Open
    | Discard

  predicate NfLegal(f: NfFlat, op: NfOp) {
    op.Query? || op.Open? || f.NfLayer?
  }

  function NfStepFlat(f: NfFlat, op: NfOp): NfFlat
    requires NfLegal(f, op)
  {
    match op
    case Mark(nfs, spent) =>
      var marked := set nf | nf in nfs;
      NfLayer(if spent then f.spent + marked else f.spent - marked, f.below)
    case Query(_) => f
    case FlushTop =>
      NfLayer(f.spent, match f.below case NfGround(_) => NfGround(f.spent) case NfLayer(_, b) => NfLayer(f.spent, b))
    case Open => NfLayer(f.spent, f)
    case Discard => f.below
  }

  function NfStepView(v: NfView, op: NfOp): NfView
    requires op.Query? || op.Open? || v.NfCache?
  {
    match op
    case Mark(nfs, spent) => SetNullifiers(v, nfs, spent)
    case Query(nf) => TouchNullifier(v, nf)
    case FlushTop => NfFlush(v)
    case Open => NfCache(map[], v)
    case Discard => v.base
  }

  ghost predicate NfRefines(v: NfView, f: NfFlat)
    decreases v
  {
    && (forall nf :: GetNullifier(v, nf) == (nf in f.spent))
    && v.NfCache? == f.NfLayer?
    && (v.NfCache? ==> NfRefines(v.base, f.below))
  }

  lemma {:induction false} TouchRefines(v: NfView, f: NfFlat, nf: nat)
    requires NfInv(v) && NfRefines(v, f)
    ensures NfRefines(TouchNullifier(v, nf), f)
    decreases v
  {
    TouchNullifierSpec(v, nf);
    if v.NfCache? {
      TouchRefines(v.base, f.below, nf);
    }
  }

  lemma NfStepRefines(v: NfView, f: NfFlat, op: NfOp)
    requires NfInv(v) && NfRefines(v, f) && NfLegal(f, op)
    ensures NfInv(NfStepView(v, op))
    ensures NfRefines(NfStepView(v, op), NfStepFlat(f, op))
  {
    match op {
      case Mark(nfs, spent) =>
        var r := NfStepView(v, op);
        forall nf
          ensures GetNullifier(r, nf) == if nf in nfs then spent else GetNullifier(v, nf)
        {
        }
      case Query(nf) =>
        TouchNullifierSpec(v, nf);
        TouchRefines(v, f, nf);
      case FlushTop =>
        NfBatchWriteSpec(v.base, v.entries);
        var b := NfBatchWrite(v.base, v.entries);
        forall nf ensures GetNullifier(b, nf) == GetNullifier(v, nf) {
        }
        assert NfRefines(b, NfStepFlat(f, op).below);
      case Open =>
      case Discard =>
    }
  }

  predicate NfLegalRun(f: NfFlat, ops: seq<NfOp>)
    decreases |ops|
  {
    ops == [] || (NfLegal(f, ops[0]) && NfLegalRun(NfStepFlat(f, ops[0]), ops[1..]))
  }

  function NfRunFlat(f: NfFlat, ops: seq<NfOp>): NfFlat
    requires NfLegalRun(f, ops)
    decreases |ops|
  {
    if ops == [] then f else NfRunFlat(NfStepFlat(f, ops[0]), ops[1..])
  }

  /** A run of calls on the stack; `None` once some call has no cache to act on. */
  function NfRunView(v: NfView, ops: seq<NfOp>): Option<NfView>
    decreases |ops|
  {
    if ops == [] then Some(v)
    else if ops[0].Query? || ops[0].Open? || v.NfCache? then NfRunView(NfStepView(v, ops[0]), ops[1..])
    else None
  }

  /** Over any depth and any run, each layer reports exactly the nullifiers of its flat set. */
  lemma {:induction false} NfRunRefines(v: NfView, f: NfFlat, ops: seq<NfOp>)
    requires NfInv(v) && NfRefines(v, f) && NfLegalRun(f, ops)
    ensures NfRunView(v, ops).Some?
    ensures NfInv(NfRunView(v, ops).value)
    ensures NfRefines(NfRunView(v, ops).value, NfRunFlat(f, ops))
    decreases |ops|
  {
    if ops != [] {
      NfStepRefines(v, f, ops[0]);
      NfRunRefines(NfStepView(v, ops[0]), NfStepFlat(f, ops[0]), ops[1..]);
    }
  }

  predicate SpentInEveryLayer(v: NfView, nf: nat) {
    GetNullifier(v, nf) && (v.NfCache? ==> SpentInEveryLayer(v.base, nf))
  }

  predicate FlatSpentInEveryLayer(f: NfFlat, nf: nat) {
    nf in f.spent && (f.NfLayer? ==> FlatSpentInEveryLayer(f.below, nf))
  }

  lemma {:induction false} RefinesSpentInEveryLayer(v: NfView, f: NfFlat, nf: nat)
    requires NfRefines(v, f)
    ensures SpentInEveryLayer(v, nf) == FlatSpentInEveryLayer(f, nf)
    decreases v
  {
    assert GetNullifier(v, nf) == (nf in f.spent);
    if v.NfCache? {
      RefinesSpentInEveryLayer(v.base, f.below, nf);
    }
  }

  /** A nullifier that every layer reports spent stays so until it is unmarked. */
  lemma {:induction false} SpentUntilUnmarked(v: NfView, f: NfFlat, ops: seq<NfOp>, nf: nat)
    requires NfInv(v) && NfRefines(v, f) && NfLegalRun(f, ops)
    requires SpentInEveryLayer(v, nf)
    requires forall op | op in ops :: op.Mark? && !op.spentNow ==> nf !in op.nfs
    ensures NfRunView(v, ops).Some? && SpentInEveryLayer(NfRunView(v, ops).value, nf)
    decreases |ops|
  {
    if ops != [] {
      var w, g := NfStepView(v, ops[0]), NfStepFlat(f, ops[0]);
      NfStepRefines(v, f, ops[0]);
      RefinesSpentInEveryLayer(v, f, nf);
      assert FlatSpentInEveryLayer(g, nf);
      RefinesSpentInEveryLayer(w, g, nf);
      SpentUntilUnmarked(w, g, ops[1..], nf);
    }
  }

  // ----- anchors -----

  datatype Tree = Tree(leaves: seq<nat>)

  const EmptyTree := Tree([])

  /** Distinct trees have distinct roots, and no root is the null hash. */
  ghost predicate GoodRoot(root: Tree -> nat) {
    && (forall t, u :: root(t) == root(u) ==> t == u)
    && (forall t :: root(t) != 0)
  }

  datatype AnchorEntry = AnchorEntry(entered: bool, tree: Tree, isDirty: bool)

  type AnchorMap = map<nat, AnchorEntry>

  /** `best` is the layer's best anchor, 0 when the layer has not read or set it. */
  datatype AnchorView =
    | AnchorDb(anchors: map<nat, Tree>, best: nat)
    | AnchorCache(entries: AnchorMap, best: nat, base: AnchorView)

  /** The database knows the empty tree's root without storing it. */
  function AnchorAt(root: Tree -> nat, v: AnchorView, rt: nat): Option<Tree> {
    match v
    case AnchorDb(anchors, _) =>
      if rt == root(EmptyTree) then Some(EmptyTree) else if rt in anchors then Some(anchors[rt]) else None
    case AnchorCache(entries, _, base) =>
      if rt in entries then (if entries[rt].entered then Some(entries[rt].tree) else None)
      else AnchorAt(root, base, rt)
  }

  function TouchAnchor(root: Tree -> nat, v: AnchorView, rt: nat): (r: AnchorView)
    ensures r.AnchorCache? == v.AnchorCache?
  {
    if v.AnchorDb? || rt in v.entries then v
    else
      var b := TouchAnchor(root, v.base, rt);
      match AnchorAt(root, v.base, rt)
      case None => v.(base := b)
      case Some(t) => AnchorCache(v.entries[rt := AnchorEntry(true, t, false)], v.best, b)
  }

  function BestAnchor(root: Tree -> nat, v: AnchorView): nat {
    if v.best != 0 then v.best
    else if v.AnchorDb? then root(EmptyTree)
    else BestAnchor(root, v.base)
  }

  function TouchBest(root: Tree -> nat, v: AnchorView): (r: AnchorView)
    ensures r.AnchorCache? == v.AnchorCache?
    ensures v.AnchorCache? ==> r.entries == v.entries
  {
    if v.AnchorDb? || v.best != 0 then v
    else AnchorCache(v.entries, BestAnchor(root, v.base), TouchBest(root, v.base))
  }

  function PushAnchor(root: Tree -> nat, v: AnchorView, tree: Tree): (r: AnchorView)
    requires v.AnchorCache?
    ensures r.AnchorCache?
  {
    var w := TouchBest(root, v);
    var rt := root(tree);
    if w.best == rt then w
    else AnchorCache(w.entries[rt := AnchorEntry(true, tree, true)], rt, w.base)
  }

  /** `None` where the code's assertion that the current best anchor can be found fails. */
  function PopAnchor(root: Tree -> nat, v: AnchorView, newrt: nat): (r: Option<AnchorView>)
    requires v.AnchorCache?
    ensures r.Some? ==> r.value.AnchorCache?
  {
    var w := TouchBest(root, v);
    var cur := w.best;
    if cur == newrt then Some(w)
    else
      var t := TouchAnchor(root, w, cur);
      if AnchorAt(root, w, cur).None? then None
      else Some(AnchorCache(t.entries[cur := AnchorEntry(false, t.entries[cur].tree, true)], newrt, t.base))
  }

  function AnchorMergedAt(child: AnchorMap, parent: AnchorMap, rt: nat): AnchorEntry
    requires rt in child || rt in parent
    requires rt in child && !child[rt].isDirty ==> rt in parent
  {
    if rt !in child || !child[rt].isDirty then parent[rt]
    else if rt !in parent then AnchorEntry(child[rt].entered, child[rt].tree, true)
    else if parent[rt].entered != child[rt].entered then AnchorEntry(child[rt].entered, parent[rt].tree, true)
    else parent[rt]
  }

  /** An entry the parent already has keeps the parent's tree; only its presence follows the child. */
  function AnchorMerged(child: AnchorMap, parent: AnchorMap): AnchorMap {
    map rt | rt in child.Keys + parent.Keys && (rt in parent || child[rt].isDirty) :: AnchorMergedAt(child, parent, rt)
  }

  function AnchorDbMergedAt(root: Tree -> nat, child: AnchorMap, anchors: map<nat, Tree>, rt: nat): Option<Tree> {
    if rt in child && child[rt].isDirty && !child[rt].entered then None
    else if rt in child && child[rt].isDirty && rt != root(EmptyTree) then Some(child[rt].tree)
    else if rt in anchors then Some(anchors[rt]) else None
  }

  function AnchorDbMerged(root: Tree -> nat, child: AnchorMap, anchors: map<nat, Tree>): map<nat, Tree> {
    map rt | rt in child.Keys + anchors.Keys && AnchorDbMergedAt(root, child, anchors, rt).Some?
      :: AnchorDbMergedAt(root, child, anchors, rt).value
  }

  /** Entries that agree with the parent's leave the parent's as they were, clean ones clean. */
  lemma AgreeingAnchorsChangeNothing(child: AnchorMap, parent: AnchorMap)
    requires forall rt | rt in child && child[rt].isDirty ::
               rt in parent && parent[rt].entered == child[rt].entered
    ensures AnchorMerged(child, parent) == parent
  {
  }

  /** A cache takes the child's best anchor as it is; the database ignores a null one. */
  function AnchorBatchWrite(root: Tree -> nat, v: AnchorView, child: AnchorMap, best: nat): AnchorView {
    match v
    case AnchorDb(anchors, old_best) =>
      AnchorDb(AnchorDbMerged(root, child, anchors), if best != 0 then best else old_best)
    case AnchorCache(entries, _, base) =>
      AnchorCache(AnchorMerged(child, entries), best, base)
  }

  function AnchorFlush(root: Tree -> nat, v: AnchorView): (r: AnchorView)
    requires v.AnchorCache?
    ensures r.AnchorCache?
  {
    AnchorCache(map[], v.best, AnchorBatchWrite(root, v.base, v.entries, v.best))
  }

  /** A clean entry shows what the base shows, and every tree is filed under its root. */
  ghost predicate AnchorEntryOk(root: Tree -> nat, rt: nat, e: AnchorEntry, below: Option<Tree>) {
    && root(e.tree) == rt
    && (!e.isDirty ==> (if e.entered then Some(e.tree) else None) == below)
  }

  ghost predicate AnchorInv(root: Tree -> nat, v: AnchorView) {
    match v
    case AnchorDb(anchors, _) => forall rt | rt in anchors :: root(anchors[rt]) == rt
    case AnchorCache(entries, _, base) =>
      && AnchorInv(root, base)
      && forall rt | rt in entries :: AnchorEntryOk(root, rt, entries[rt], AnchorAt(root, base, rt))
  }

  ghost predicate SameAnchors(root: Tree -> nat, v: AnchorView, w: AnchorView) {
    forall rt :: AnchorAt(root, v, rt) == AnchorAt(root, w, rt)
  }

  lemma {:induction false} AnchorIsFiledUnderItsRoot(root: Tree -> nat, v: AnchorView, rt: nat)
    requires AnchorInv(root, v)
    ensures AnchorAt(root, v, rt).Some? ==> root(AnchorAt(root, v, rt).value) == rt
  {
    if v.AnchorCache? && rt !in v.entries {
      AnchorIsFiledUnderItsRoot(root, v.base, rt);
    }
  }

  lemma {:induction false} TouchAnchorSpec(root: Tree -> nat, v: AnchorView, rt: nat)
    requires AnchorInv(root, v)
    ensures AnchorInv(root, TouchAnchor(root, v, rt))
    ensures SameAnchors(root, TouchAnchor(root, v, rt), v)
    ensures BestAnchor(root, TouchAnchor(root, v, rt)) == BestAnchor(root, v)
    ensures TouchAnchor(root, v, rt).best == v.best
  {
    if v.AnchorCache? && rt !in v.entries {
      TouchAnchorSpec(root, v.base, rt);
      AnchorIsFiledUnderItsRoot(root, v.base, rt);
      var w := TouchAnchor(root, v, rt);
      forall k | k in w.entries ensures AnchorEntryOk(root, k, w.entries[k], AnchorAt(root, w.base, k)) {
        assert AnchorAt(root, w.base, k) == AnchorAt(root, v.base, k);
      }
    }
  }

  lemma {:induction false} TouchBestSpec(root: Tree -> nat, v: AnchorView)
    requires AnchorInv(root, v)
    ensures AnchorInv(root, TouchBest(root, v))
    ensures SameAnchors(root, TouchBest(root, v), v)
    ensures BestAnchor(root, TouchBest(root, v)) == BestAnchor(root, v)
    ensures v.AnchorCache? ==> TouchBest(root, v).best == BestAnchor(root, v)
  {
    if v.AnchorCache? && v.best == 0 {
      TouchBestSpec(root, v.base);
      var w := TouchBest(root, v);
      forall k | k in w.entries ensures AnchorEntryOk(root, k, w.entries[k], AnchorAt(root, w.base, k)) {
        assert AnchorAt(root, w.base, k) == AnchorAt(root, v.base, k);
      }
    }
  }

  lemma PushAnchorSpec(root: Tree -> nat, v: AnchorView, tree: Tree)
    requires GoodRoot(root) && AnchorInv(root, v) && v.AnchorCache?
    ensures var w := PushAnchor(root, v, tree);
            && AnchorInv(root, w)
            && BestAnchor(root, w) == root(tree)
            && forall rt :: AnchorAt(root, w, rt)
                            == if rt == root(tree) && BestAnchor(root, v) != rt then Some(tree)
                                else AnchorAt(root, v, rt)
  {
    TouchBestSpec(root, v);
    var t, w := TouchBest(root, v), PushAnchor(root, v, tree);
    forall k | k in w.entries ensures AnchorEntryOk(root, k, w.entries[k], AnchorAt(root, w.base, k)) {
      assert k in t.entries ==> AnchorEntryOk(root, k, t.entries[k], AnchorAt(root, t.base, k));
    }
    forall rt ensures AnchorAt(root, t, rt) == AnchorAt(root, v, rt) {
    }
  }

  /** Popping succeeds exactly when it has nothing to do or the current best anchor is visible. */
  lemma PopAnchorSpec(root: Tree -> nat, v: AnchorView, newrt: nat)
    requires AnchorInv(root, v) && v.AnchorCache?
    ensures var cur := BestAnchor(root, v);
            PopAnchor(root, v, newrt).Some? <==> cur == newrt || AnchorAt(root, v, cur).Some?
    ensures PopAnchor(root, v, newrt).Some? ==>
              var w, cur := PopAnchor(root, v, newrt).value, BestAnchor(root, v);
              && AnchorInv(root, w)
              && w.best == newrt
              && forall rt :: AnchorAt(root, w, rt) == if rt == cur && cur != newrt then None else AnchorAt(root, v, rt)
  {
    TouchBestSpec(root, v);
    var b := TouchBest(root, v);
    var cur := b.best;
    TouchAnchorSpec(root, b, cur);
    var t := TouchAnchor(root, b, cur);
    if cur != newrt && AnchorAt(root, b, cur).Some? {
      var w := PopAnchor(root, v, newrt).value;
      forall k | k in w.entries ensures AnchorEntryOk(root, k, w.entries[k], AnchorAt(root, w.base, k)) {
        assert AnchorEntryOk(root, k, t.entries[k], AnchorAt(root, t.base, k));
      }
      forall rt ensures AnchorAt(root, t, rt) == AnchorAt(root, v, rt) {
        assert AnchorAt(root, t, rt) == AnchorAt(root, b, rt);
      }
    }
  }

  /**
   Pushing a tree and popping back to the previous best anchor always succeeds and restores the best
   anchor; it restores the whole anchor view exactly when the tree was already the best one or its root
   was not visible before.
   */
  lemma PushThenPop(root: Tree -> nat, v: AnchorView, tree: Tree)
    requires GoodRoot(root) && AnchorInv(root, v) && v.AnchorCache?
    ensures var prev := BestAnchor(root, v);
            && PopAnchor(root, PushAnchor(root, v, tree), prev).Some?
            && var w := PopAnchor(root, PushAnchor(root, v, tree), prev).value;
               && AnchorInv(root, w)
               && BestAnchor(root, w) == prev
               && (SameAnchors(root, w, v) <==> prev == root(tree) || AnchorAt(root, v, root(tree)).None?)
  {
    var prev, p := BestAnchor(root, v), PushAnchor(root, v, tree);
    PushAnchorSpec(root, v, tree);
    PopAnchorSpec(root, p, prev);
    var w := PopAnchor(root, p, prev).value;
    forall rt ensures AnchorAt(root, w, rt) == if rt == root(tree) && prev != rt then None else AnchorAt(root, v, rt) {
    }
  }

  /** Written over another cache, a sound child map is what that cache then shows. */
  lemma AnchorMergeSpec(root: Tree -> nat, v: AnchorView, child: AnchorMap, best: nat)
    requires GoodRoot(root) && AnchorInv(root, v) && v.AnchorCache?
    requires forall rt | rt in child :: AnchorEntryOk(root, rt, child[rt], AnchorAt(root, v, rt))
    ensures var w := AnchorBatchWrite(root, v, child, best);
            && AnchorInv(root, w)
            && forall rt :: AnchorAt(root, w, rt)
                            == if rt in child then (if child[rt].entered then Some(child[rt].tree) else None)
                                else AnchorAt(root, v, rt)
  {
    var m := AnchorMerged(child, v.entries);
    var w := AnchorBatchWrite(root, v, child, best);
    forall rt
      ensures rt in m ==> AnchorEntryOk(root, rt, m[rt], AnchorAt(root, v.base, rt))
      ensures AnchorAt(root, w, rt)
              == if rt in child then (if child[rt].entered then Some(child[rt].tree) else None)
                  else AnchorAt(root, v, rt)
    {
      if rt in v.entries {
        assert AnchorEntryOk(root, rt, v.entries[rt], AnchorAt(root, v.base, rt));
      }
      if rt in m {
        assert m[rt] == AnchorMergedAt(child, v.entries, rt);
      }
    }
  }

  lemma AnchorDbMergeSpec(root: Tree -> nat, v: AnchorView, child: AnchorMap, best: nat)
    requires GoodRoot(root) && AnchorInv(root, v) && v.AnchorDb?
    requires forall rt | rt in child :: AnchorEntryOk(root, rt, child[rt], AnchorAt(root, v, rt))
    ensures var w := AnchorBatchWrite(root, v, child, best);
            && AnchorInv(root, w)
            && forall rt :: AnchorAt(root, w, rt)
                            == if rt == root(EmptyTree) then Some(EmptyTree)
                               else if rt in child then (if child[rt].entered then Some(child[rt].tree) else None)
                               else AnchorAt(root, v, rt)
  {
    var m := AnchorDbMerged(root, child, v.anchors);
    forall rt
      ensures (if rt in m then Some(m[rt]) else None) == AnchorDbMergedAt(root, child, v.anchors, rt)
      ensures rt in m ==> root(m[rt]) == rt
    {
    }
    var w := AnchorBatchWrite(root, v, child, best);
    forall rt ensures AnchorAt(root, w, rt)
                      == if rt == root(EmptyTree) then Some(EmptyTree)
                         else if rt in child then (if child[rt].entered then Some(child[rt].tree) else None)
                         else AnchorAt(root, v, rt)
    {
      assert rt in child ==> AnchorEntryOk(root, rt, child[rt], AnchorAt(root, v, rt));
    }
  }

  /** A flush into another cache changes no anchor the flushed cache shows, and its base then shows the same. */
  lemma FlushIntoCacheKeepsAnchors(root: Tree -> nat, v: AnchorView)
    requires GoodRoot(root) && AnchorInv(root, v) && v.AnchorCache? && v.base.AnchorCache?
    ensures AnchorInv(root, AnchorFlush(root, v))
    ensures SameAnchors(root, AnchorFlush(root, v), v)
    ensures SameAnchors(root, AnchorFlush(root, v).base, v)
  {
    AnchorMergeSpec(root, v.base, v.entries, v.best);
    forall rt ensures AnchorAt(root, AnchorFlush(root, v), rt) == AnchorAt(root, v, rt) {
    }
  }

  /**
   A flush into the database keeps the anchors exactly when the empty tree's root is still visible: the
   database cannot forget that root.
   */
  lemma FlushIntoDbKeepsAnchorsIff(root: Tree -> nat, v: AnchorView)
    requires GoodRoot(root) && AnchorInv(root, v) && v.AnchorCache? && v.base.AnchorDb?
    ensures AnchorInv(root, AnchorFlush(root, v))
    ensures SameAnchors(root, AnchorFlush(root, v), v) <==> AnchorAt(root, v, root(EmptyTree)).Some?
    ensures SameAnchors(root, AnchorFlush(root, v).base, AnchorFlush(root, v))
  {
    var e := root(EmptyTree);
    AnchorDbMergeSpec(root, v.base, v.entries, v.best);
    AnchorIsFiledUnderItsRoot(root, v, e);
    var w := AnchorFlush(root, v);
    forall rt ensures AnchorAt(root, w, rt) == if rt == e then Some(EmptyTree) else AnchorAt(root, v, rt) {
    }
    assert AnchorAt(root, w, e) == Some(EmptyTree);
  }

  /**
   A flush keeps the best anchor exactly when this cache knows its own, or its base is the database, or
   its base's own best anchor is what lies further below: otherwise the null is written over it.
   */
  lemma FlushKeepsBestAnchorIff(root: Tree -> nat, v: AnchorView)
    requires v.AnchorCache?
    ensures BestAnchor(root, AnchorFlush(root, v)) == BestAnchor(root, v)
            <==> v.best != 0 || v.base.AnchorDb? || v.base.best == 0 || v.base.best == BestAnchor(root, v.base.base)
  {
  }
}
