/**
 The stacked coin caches of `src/coins.cpp`, as values.

 A view is a database or a cache over another view.  A cache holds, for some outpoints, a coin
 (possibly spent) with a DIRTY and a FRESH flag.  The functions below give the state of the whole
 stack after each call, including the entries that reads leave behind in every layer, and `None`
 where the code throws.  The main result is `RunRefines`: for every stack depth and every legal run,
 each layer shows exactly the unspent coins of a flat map that knows nothing about caching.
 */
module CoinsSpec {
  import opened Options
  import opened Maps

  datatype OutPoint = OutPoint(hash: nat, n: nat)

  datatype TxOut = TxOut(value: int, script: seq<nat>)

  const OP_RETURN: nat := 0x6a
  const OP_ZEROCOINMINT: nat := 0xc1
  const MAX_SCRIPT_SIZE: nat := 10000

  datatype Coin = Coin(out: TxOut, height: nat, coinBase: bool, coinStake: bool) {

    predicate IsSpent() {
      out.value == -1
    }

    /** `AddCoin` drops such coins silently. */
    predicate IsIgnored() {
      || (|out.script| > 0 && out.script[0] == OP_RETURN)
      || |out.script| > MAX_SCRIPT_SIZE
      || (|out.script| > 0 && out.script[0] == OP_ZEROCOINMINT)
    }
  }

  /** A default-constructed or cleared coin. */
  const EmptyCoin := Coin(TxOut(-1, []), 0, false, false)

  datatype Entry = Entry(coin: Coin, isDirty: bool, isFresh: bool)

  const DefaultEntry := Entry(EmptyCoin, false, false)

  type CoinMap = map<OutPoint, Entry>

  datatype View =
    | Db(coins: map<OutPoint, Coin>)
    | Cache(entries: CoinMap, base: View)

  // ----- the calls -----

  /** What `GetCoin` reports; a spent coin may be reported. */
  function GetCoin(v: View, o: OutPoint): Option<Coin> {
    match v
    case Db(coins) => if o in coins then Some(coins[o]) else None
    case Cache(entries, base) => if o in entries then Some(entries[o].coin) else GetCoin(base, o)
  }

  /** The stack after `FetchCoin`: every layer that had to ask its base now holds an entry. */
  function Fetch(v: View, o: OutPoint): (r: View)
    ensures r.Cache? == v.Cache?
  {
    match v
    case Db(_) => v
    case Cache(entries, base) =>
      if o in entries then v
      else
        match GetCoin(base, o)
        case None => Cache(entries, Fetch(base, o))
        case Some(c) => Cache(entries[o := Entry(c, false, c.IsSpent())], Fetch(base, o))
  }

  /** `None` when the call throws because it would replace an unspent entry of this cache. */
  function AddCoin(v: View, o: OutPoint, c: Coin, overwrite: bool): (r: Option<View>)
    requires v.Cache? && !c.IsSpent()
    ensures r.Some? ==> r.value.Cache?
  {
    if c.IsIgnored() then Some(v)
    else
      var prior := if o in v.entries then v.entries[o] else DefaultEntry;
      if !overwrite && !prior.coin.IsSpent() then None
      else
        var isFresh := !overwrite && !prior.isDirty;
        Some(Cache(v.entries[o := Entry(c, true, prior.isFresh || isFresh)], v.base))
  }

  function SpendCoin(v: View, o: OutPoint): (r: View)
    requires v.Cache?
    ensures r.Cache?
  {
    var f := Fetch(v, o);
    if o !in f.entries then f
    else if f.entries[o].isFresh then Cache(f.entries - {o}, f.base)
    else Cache(f.entries[o := Entry(EmptyCoin, true, false)], f.base)
  }

  function Uncache(v: View, o: OutPoint): (r: View)
    requires v.Cache?
    ensures r.Cache?
  {
    if o in v.entries && !v.entries[o].isDirty && !v.entries[o].isFresh
    then Cache(v.entries - {o}, v.base)
    else v
  }

  /** The batch write throws on this pair of child and parent entries. */
  predicate Misapplied(child: Entry, parent: Option<Entry>) {
    child.isDirty && parent.Some? && child.isFresh && !parent.value.coin.IsSpent()
  }

  /** The parent's entry after the child's entry is written to it. */
  function MergeEntry(child: Entry, parent: Option<Entry>): Option<Entry> {
    if !child.isDirty then parent
    else if parent.None? then
      if child.isFresh && child.coin.IsSpent() then None else Some(Entry(child.coin, true, child.isFresh))
    else if parent.value.isFresh && child.coin.IsSpent() then None
    else Some(Entry(child.coin, true, parent.value.isFresh))
  }

  predicate AnyMisapplied(child: CoinMap, parent: CoinMap) {
    exists o | o in child :: Misapplied(child[o], Find(parent, o))
  }

  function MergedAt(child: CoinMap, parent: CoinMap, o: OutPoint): Option<Entry> {
    if o in child then MergeEntry(child[o], Find(parent, o)) else Find(parent, o)
  }

  function Merged(child: CoinMap, parent: CoinMap): CoinMap {
    map o | o in child.Keys + parent.Keys && MergedAt(child, parent, o).Some? :: MergedAt(child, parent, o).value
  }

  /** The database keeps a dirty entry when it is unspent and erases it when it is spent. */
  function DbMergedAt(child: CoinMap, coins: map<OutPoint, Coin>, o: OutPoint): Option<Coin> {
    if o in child && child[o].isDirty then
      if child[o].coin.IsSpent() then None else Some(child[o].coin)
    else Find(coins, o)
  }

  function DbMerged(child: CoinMap, coins: map<OutPoint, Coin>): map<OutPoint, Coin> {
    map o | o in child.Keys + coins.Keys && DbMergedAt(child, coins, o).Some? :: DbMergedAt(child, coins, o).value
  }

  /** `None` when the call throws "FRESH flag misapplied". */
  function BatchWrite(v: View, child: CoinMap): Option<View> {
    match v
    case Db(coins) => Some(Db(DbMerged(child, coins)))
    case Cache(entries, base) =>
      if AnyMisapplied(child, entries) then None else Some(Cache(Merged(child, entries), base))
  }

  function Flush(v: View): (r: Option<View>)
    requires v.Cache?
    ensures r.Some? ==> r.value.Cache?
  {
    match BatchWrite(v.base, v.entries)
    case None => None
    case Some(b) => Some(Cache(map[], b))
  }

  // ----- what a view shows, and the invariant -----

  function Visible(c: Option<Coin>): Option<Coin> {
    if c.Some? && c.value.IsSpent() then None else c
  }

  /** The unspent coin the view shows at `o`; this is what `HaveCoin` and `AccessCoin` expose. */
  function Unspent(v: View, o: OutPoint): Option<Coin> {
    Visible(GetCoin(v, o))
  }

  /** FRESH means the base shows nothing; a clean entry shows what the base shows. */
  predicate EntryOk(e: Entry, below: Option<Coin>) {
    && (e.isFresh ==> below.None?)
    && (!e.isDirty ==> Visible(Some(e.coin)) == below)
  }

  ghost predicate Inv(v: View) {
    match v
    case Db(coins) => forall o | o in coins :: !coins[o].IsSpent()
    case Cache(entries, base) => Inv(base) && forall o | o in entries :: EntryOk(entries[o], Unspent(base, o))
  }

  // ----- reads change no view -----

  lemma {:induction false} FetchShowsTheSame(v: View, o: OutPoint, p: OutPoint)
    ensures GetCoin(Fetch(v, o), p) == GetCoin(v, p)
  {
    if v.Cache? && o !in v.entries {
      FetchShowsTheSame(v.base, o, p);
    }
  }

  lemma {:induction false} FetchKeepsInv(v: View, o: OutPoint)
    requires Inv(v)
    ensures Inv(Fetch(v, o))
  {
    if v.Cache? && o !in v.entries {
      FetchKeepsInv(v.base, o);
      forall p ensures GetCoin(Fetch(v.base, o), p) == GetCoin(v.base, p) {
        FetchShowsTheSame(v.base, o, p);
      }
      var f := Fetch(v, o);
      forall p | p in f.entries ensures EntryOk(f.entries[p], Unspent(f.base, p)) {
      }
    }
  }

  // ----- adds and spends -----

  /**
   A coin may be added without the overwrite flag exactly when the view shows no unspent coin there:
   otherwise the call throws or leaves a FRESH flag that is a lie.
   */
  lemma AddWithoutOverwriteIsSoundIff(v: View, o: OutPoint, c: Coin)
    requires v.Cache? && Inv(v) && !c.IsSpent() && Storable(c.out.script)
    ensures (AddCoin(v, o, c, false).Some? && Inv(AddCoin(v, o, c, false).value)) <==> Unspent(v, o).None?
  {
    var r := AddCoin(v, o, c, false);
    if r.Some? {
      forall p | p in r.value.entries && p != o ensures EntryOk(r.value.entries[p], Unspent(v.base, p)) {
      }
      assert r.value.entries[o].isFresh ==> (Inv(r.value) ==> EntryOk(r.value.entries[o], Unspent(v.base, o)));
    }
  }

  /** A legal add never throws, keeps the invariant, and changes the view at `o` only. */
  lemma AddCoinSpec(v: View, o: OutPoint, c: Coin, overwrite: bool)
    requires v.Cache? && Inv(v) && !c.IsSpent()
    requires overwrite || Unspent(v, o).None? || !Storable(c.out.script)
    ensures AddCoin(v, o, c, overwrite).Some?
    ensures var r := AddCoin(v, o, c, overwrite).value;
            && Inv(r) && r.base == v.base
            && forall p :: Unspent(r, p) == if p == o && Storable(c.out.script) then Some(c) else Unspent(v, p)
  {
    var r := AddCoin(v, o, c, overwrite);
    forall p | p in r.value.entries ensures EntryOk(r.value.entries[p], Unspent(v.base, p)) {
      if p == o && Storable(c.out.script) && o in v.entries {
        assert EntryOk(v.entries[o], Unspent(v.base, o));
      }
    }
  }

  /** A script that an output is stored for: empty, or up to 10000 bytes and not starting with 0x6a or 0xc1. */
  predicate Storable(script: seq<nat>) {
    script == [] || (|script| <= 10000 && script[0] != 0x6a && script[0] != 0xc1)
  }

  /**
   Where the view shows no unspent coin, adding one that has a value never throws, and the coin is then
   shown if and only if its script can be stored; otherwise nothing changes at all.
   */
  lemma AddedIsShownIff(v: View, o: OutPoint, c: Coin, overwrite: bool)
    requires v.Cache? && Inv(v) && Unspent(v, o).None? && c.out.value != -1
    ensures AddCoin(v, o, c, overwrite).Some?
    ensures var r := AddCoin(v, o, c, overwrite).value;
            && (Unspent(r, o) == Some(c)
                <==> c.out.script == []
                     || (|c.out.script| <= 10000 && c.out.script[0] != 0x6a && c.out.script[0] != 0xc1))
            && (!Storable(c.out.script) ==> r == v)
            && (Storable(c.out.script) ==> r == v.(entries := v.entries[o := r.entries[o]]) && r.entries[o].isDirty)
  {
    AddCoinSpec(v, o, c, overwrite);
  }

  /** Spending keeps the invariant, changes the view at `o` only, and leaves every lower view as it was. */
  lemma SpendCoinSpec(v: View, o: OutPoint)
    requires v.Cache? && Inv(v)
    ensures Inv(SpendCoin(v, o))
    ensures forall p :: Unspent(SpendCoin(v, o), p) == if p == o then None else Unspent(v, p)
    ensures SpendCoin(v, o).base == Fetch(v, o).base
  {
    var f := Fetch(v, o);
    FetchKeepsInv(v, o);
    forall p ensures GetCoin(f, p) == GetCoin(v, p) {
      FetchShowsTheSame(v, o, p);
    }
    if o in f.entries {
      assert EntryOk(f.entries[o], Unspent(f.base, o));
    }
    var r := SpendCoin(v, o);
    forall p | p in r.entries ensures EntryOk(r.entries[p], Unspent(r.base, p)) {
      assert p in f.entries;
      assert EntryOk(f.entries[p], Unspent(f.base, p));
    }
  }

  lemma UncacheSpec(v: View, o: OutPoint)
    requires v.Cache? && Inv(v)
    ensures Inv(Uncache(v, o))
    ensures forall p :: Unspent(Uncache(v, o), p) == Unspent(v, p)
    ensures Uncache(v, o).base == v.base && Uncache(v, o).entries - {o} == v.entries - {o}
    ensures o in Uncache(v, o).entries <==> o in v.entries && (v.entries[o].isDirty || v.entries[o].isFresh)
  {
    if o in v.entries {
      assert EntryOk(v.entries[o], Unspent(v.base, o));
    }
    var r := Uncache(v, o);
    forall p | p in r.entries ensures EntryOk(r.entries[p], Unspent(r.base, p)) {
      assert EntryOk(v.entries[p], Unspent(v.base, p));
    }
  }

  // ----- the batch write -----

  lemma MergedFind(child: CoinMap, parent: CoinMap, o: OutPoint)
    ensures Find(Merged(child, parent), o) == MergedAt(child, parent, o)
  {
  }

  lemma DbMergedFind(child: CoinMap, coins: map<OutPoint, Coin>, o: OutPoint)
    ensures Find(DbMerged(child, coins), o) == DbMergedAt(child, coins, o)
  {
  }

  /** Writing one sound child entry over one sound parent entry is sound and shows the child's coin. */
  lemma MergeEntrySpec(child: Entry, parent: Option<Entry>, grand: Option<Coin>)
    requires parent.Some? ==> EntryOk(parent.value, grand)
    requires grand.Some? ==> !grand.value.IsSpent()
    requires EntryOk(child, if parent.Some? then Visible(Some(parent.value.coin)) else grand)
    ensures !Misapplied(child, parent)
    ensures var m := MergeEntry(child, parent);
            && (m.Some? ==> EntryOk(m.value, grand) && Visible(Some(m.value.coin)) == Visible(Some(child.coin)))
            && (m.None? ==> grand == Visible(Some(child.coin)))
  {
  }

  /** Written over any sound view, a sound child map throws nothing and is what the view then shows. */
  lemma BatchWriteSpec(v: View, child: CoinMap)
    requires Inv(v)
    requires forall o | o in child :: EntryOk(child[o], Unspent(v, o))
    ensures BatchWrite(v, child).Some?
    ensures Inv(BatchWrite(v, child).value)
    ensures forall o :: Unspent(BatchWrite(v, child).value, o)
                        == if o in child then Visible(Some(child[o].coin)) else Unspent(v, o)
    ensures v.Cache? ==> BatchWrite(v, child).value.Cache? && BatchWrite(v, child).value.base == v.base
  {
    match v
    case Db(coins) =>
      forall o ensures Find(DbMerged(child, coins), o) == DbMergedAt(child, coins, o) {
        DbMergedFind(child, coins, o);
      }
    case Cache(entries, base) =>
      forall o | o in child
        ensures !Misapplied(child[o], Find(entries, o))
      {
        MergeEntrySpec(child[o], Find(entries, o), Unspent(base, o));
      }
      forall o
        ensures Find(Merged(child, entries), o) == MergedAt(child, entries, o)
        ensures o in Merged(child, entries) ==> EntryOk(Merged(child, entries)[o], Unspent(base, o))
        ensures Unspent(Cache(Merged(child, entries), base), o)
                == if o in child then Visible(Some(child[o].coin)) else Unspent(v, o)
      {
        MergedFind(child, entries, o);
        if o in child {
          MergeEntrySpec(child[o], Find(entries, o), Unspent(base, o));
        }
      }
  }

  /** A flush never throws, changes no view of the flushed cache, and makes its base show the same. */
  lemma FlushSpec(v: View)
    requires v.Cache? && Inv(v)
    ensures Flush(v).Some? && Inv(Flush(v).value)
    ensures forall o :: Unspent(Flush(v).value, o) == Unspent(v, o)
    ensures forall o :: Unspent(Flush(v).value.base, o) == Unspent(v, o)
    ensures v.base.Cache? ==> Flush(v).value.base.Cache? && Flush(v).value.base.base == v.base.base
  {
    BatchWriteSpec(v.base, v.entries);
    forall o ensures Unspent(Flush(v).value.base, o) == Unspent(v, o) {
    }
  }

  // ----- whole runs against flat maps -----

  /** One flat map of unspent coins per layer; `Layer` is a map over the layers below it. */
  datatype Flat =
    | Ground(coins: map<OutPoint, Coin>)
    | Layer(coins: map<OutPoint, Coin>, below: Flat)

  datatype Op =
    | Add(o: OutPoint, c: Coin, overwrite: bool)
    | Spend(o: OutPoint)
    | Read(o: OutPoint)
    | Forget(o: OutPoint)
    | FlushTop
    | Open
    | Discard

  /** What the callers owe, stated on the flat maps alone. */
  predicate Legal(f: Flat, op: Op) {
    match op
    case Add(o, c, overwrite) =>
      f.Layer? && !c.IsSpent() && (overwrite || !Storable(c.out.script) || o !in f.coins)
    case Read(_) => true
    case Open => true
    case _ => f.Layer?
  }

  function StepFlat(f: Flat, op: Op): Flat
    requires Legal(f, op)
  {
    match op
    case Add(o, c, _) => if Storable(c.out.script) then Layer(f.coins[o := c], f.below) else f
    case Spend(o) => Layer(f.coins - {o}, f.below)
    case Read(_) => f
    case Forget(_) => f
    case FlushTop => Layer(f.coins, WithCoins(f.below, f.coins))
    case Open => Layer(f.coins, f)
    case Discard => f.below
  }

  function WithCoins(f: Flat, coins: map<OutPoint, Coin>): Flat {
    match f
    case Ground(_) => Ground(coins)
    case Layer(_, below) => Layer(coins, below)
  }

  function StepView(v: View, op: Op): Option<View>
    requires op.Add? ==> v.Cache? && !op.c.IsSpent()
    requires op.Spend? || op.Forget? || op.FlushTop? || op.Discard? ==> v.Cache?
  {
    match op
    case Add(o, c, overwrite) => AddCoin(v, o, c, overwrite)
    case Spend(o) => Some(SpendCoin(v, o))
    case Read(o) => Some(Fetch(v, o))
    case Forget(o) => Some(Uncache(v, o))
    case FlushTop => Flush(v)
    case Open => Some(Cache(map[], v))
    case Discard => Some(v.base)
  }

  /** Layer by layer, the view shows exactly the coins of the flat map. */
  ghost predicate Refines(v: View, f: Flat)
    decreases v
  {
    && (forall o :: Unspent(v, o) == Find(f.coins, o))
    && v.Cache? == f.Layer?
    && (v.Cache? ==> Refines(v.base, f.below))
  }

  lemma {:induction false} FetchRefines(v: View, f: Flat, o: OutPoint)
    requires Refines(v, f)
    ensures Refines(Fetch(v, o), f)
    decreases v
  {
    forall p ensures GetCoin(Fetch(v, o), p) == GetCoin(v, p) {
      FetchShowsTheSame(v, o, p);
    }
    if v.Cache? {
      FetchRefines(v.base, f.below, o);
    }
  }

  lemma StepRefines(v: View, f: Flat, op: Op)
    requires Inv(v) && Refines(v, f) && Legal(f, op)
    ensures StepView(v, op).Some?
    ensures Inv(StepView(v, op).value)
    ensures Refines(StepView(v, op).value, StepFlat(f, op))
  {
    match op {
      case Add(o, c, overwrite) =>
        assert Unspent(v, o) == Find(f.coins, o);
        AddCoinSpec(v, o, c, overwrite);
      case Spend(o) =>
        SpendCoinSpec(v, o);
        FetchRefines(v, f, o);
      case Read(o) =>
        FetchKeepsInv(v, o);
        FetchRefines(v, f, o);
      case Forget(o) =>
        UncacheSpec(v, o);
      case FlushTop =>
        FlushSpec(v);
      case Open =>
        assert forall o :: Unspent(Cache(map[], v), o) == Unspent(v, o);
      case Discard =>
    }
  }

  predicate LegalRun(f: Flat, ops: seq<Op>)
    decreases |ops|
  {
    ops == [] || (Legal(f, ops[0]) && LegalRun(StepFlat(f, ops[0]), ops[1..]))
  }

  function RunFlat(f: Flat, ops: seq<Op>): Flat
    requires LegalRun(f, ops)
    decreases |ops|
  {
    if ops == [] then f else RunFlat(StepFlat(f, ops[0]), ops[1..])
  }

  /** A run of calls on the stack; `None` once some call throws or has no cache to act on. */
  function RunView(v: View, ops: seq<Op>): Option<View>
    decreases |ops|
  {
    if ops == [] then Some(v)
    else
      var op := ops[0];
      if (op.Add? && (v.Db? || op.c.IsSpent()))
         || ((op.Spend? || op.Forget? || op.FlushTop? || op.Discard?) && v.Db?)
      then None
      else
        match StepView(v, op)
        case None => None
        case Some(w) => RunView(w, ops[1..])
  }

  /**
   Every legal run, over any depth of caches, throws nothing and leaves every layer showing exactly the
   coins of the flat maps, which see adds, spends, flushes and layers but no caching.
   */
  lemma {:induction false} RunRefines(v: View, f: Flat, ops: seq<Op>)
    requires Inv(v) && Refines(v, f) && LegalRun(f, ops)
    ensures RunView(v, ops).Some?
    ensures Inv(RunView(v, ops).value)
    ensures Refines(RunView(v, ops).value, RunFlat(f, ops))
    decreases |ops|
  {
    if ops != [] {
      StepRefines(v, f, ops[0]);
      RunRefines(StepView(v, ops[0]).value, StepFlat(f, ops[0]), ops[1..]);
    }
  }

  /** A coin that is added where the cache has no entry, and then spent, leaves the stack exactly as it was. */
  lemma AddThenSpendLeavesNoTrace(v: View, o: OutPoint, c: Coin)
    requires v.Cache? && o !in v.entries && !c.IsSpent() && Storable(c.out.script)
    ensures AddCoin(v, o, c, false).Some? && SpendCoin(AddCoin(v, o, c, false).value, o) == v
  {
    assert v.entries[o := Entry(c, true, true)] - {o} == v.entries;
  }

  /** Flushed, such a coin is FRESH in the parent. */
  lemma FlushedIsFresh(v: View, o: OutPoint, c: Coin)
    requires v.Cache? && v.base.Cache? && Inv(v) && o !in v.entries && o !in v.base.entries
    requires GetCoin(v.base.base, o).None? && !c.IsSpent() && Storable(c.out.script)
    ensures AddCoin(v, o, c, false).Some?
    ensures var w := Flush(AddCoin(v, o, c, false).value);
            && w.Some? && Inv(w.value) && w.value.base.Cache? && w.value.entries == map[]
            && o in w.value.base.entries && w.value.base.entries[o] == Entry(c, true, true)
  {
    assert GetCoin(v, o) == GetCoin(v.base, o) == GetCoin(v.base.base, o);
    AddCoinSpec(v, o, c, false);
    var a := AddCoin(v, o, c, false).value;
    FlushSpec(a);
    MergedFind(a.entries, v.base.entries, o);
    hide Inv, AddCoin, Merged;
  }

  lemma FreshBelowIsErased(w: View, o: OutPoint, c: Coin)
    requires w.Cache? && w.base.Cache? && w.entries == map[] && !c.IsSpent()
    requires o in w.base.entries && w.base.entries[o] == Entry(c, true, true)
    ensures var x := Flush(SpendCoin(w, o));
            x.Some? && x.value.base.Cache? && o !in x.value.base.entries && o !in x.value.entries
  {
    assert GetCoin(w.base, o) == Some(c) && Fetch(w.base, o) == w.base;
    var t := SpendCoin(w, o);
    assert t.base == w.base && t.entries == map[o := Entry(EmptyCoin, true, false)];
    MergedFind(t.entries, w.base.entries, o);
    assert !AnyMisapplied(t.entries, w.base.entries);
    hide Merged, GetCoin, Fetch;
  }

  /** Nor does it leave an entry in the parent when it is flushed between being added and being spent. */
  lemma FlushedThenSpentLeavesNoTrace(v: View, o: OutPoint, c: Coin)
    requires v.Cache? && v.base.Cache? && Inv(v) && o !in v.entries && o !in v.base.entries
    requires GetCoin(v.base.base, o).None? && !c.IsSpent() && Storable(c.out.script)
    ensures AddCoin(v, o, c, false).Some?
    ensures var w := Flush(AddCoin(v, o, c, false).value);
            && w.Some?
            && var x := Flush(SpendCoin(w.value, o));
            x.Some? && x.value.base.Cache? && o !in x.value.base.entries && o !in x.value.entries
  {
    hide Inv, AddCoin, Flush, SpendCoin, GetCoin, Storable;
    FlushedIsFresh(v, o, c);
    FreshBelowIsErased(Flush(AddCoin(v, o, c, false).value).value, o, c);
  }

  /** A FRESH coin of the parent that is overwritten and flushed stays FRESH, so that it can still vanish. */
  lemma OverwrittenStaysFresh(w: View, o: OutPoint, c: Coin)
    requires w.Cache? && w.base.Cache? && w.entries == map[] && !c.IsSpent() && Storable(c.out.script)
    requires o in w.base.entries && w.base.entries[o].isFresh
    ensures AddCoin(w, o, c, true).Some?
    ensures var x := Flush(AddCoin(w, o, c, true).value);
            && x.Some? && x.value.base.Cache?
            && o in x.value.base.entries && x.value.base.entries[o] == Entry(c, true, true)
  {
    var t := AddCoin(w, o, c, true).value;
    assert t.base == w.base && t.entries == map[o := Entry(c, true, false)];
    MergedFind(t.entries, w.base.entries, o);
    assert !AnyMisapplied(t.entries, w.base.entries);
    hide Merged;
  }

  /** A spent coin of the base that is read, overwritten and spent again leaves no entry either. */
  lemma RespentLeavesNoTrace(v: View, o: OutPoint, c: Coin)
    requires v.Cache? && o !in v.entries && GetCoin(v.base, o).Some? && GetCoin(v.base, o).value.IsSpent()
    requires !c.IsSpent() && Storable(c.out.script)
    ensures AddCoin(Fetch(v, o), o, c, true).Some?
    ensures o !in SpendCoin(AddCoin(Fetch(v, o), o, c, true).value, o).entries
  {
  }

  /**
   The caller's duty on adds is real: here an add without the overwrite flag over a coin that the base
   holds passes silently, and spending the coin then leaves it visible.
   */
  lemma UnsoundAddOutlivesItsSpend(o: OutPoint, c: Coin)
    requires !c.IsSpent() && !c.IsIgnored()
    ensures var v := Cache(map[], Db(map[o := c]));
            && Inv(v)
            && AddCoin(v, o, c, false).Some?
            && Unspent(SpendCoin(AddCoin(v, o, c, false).value, o), o) == Some(c)
  {
    var v := Cache(map[], Db(map[o := c]));
    var a := AddCoin(v, o, c, false).value;
    assert a.entries[o] == Entry(c, true, true);
    assert Fetch(a, o) == a;
    assert SpendCoin(a, o) == Cache(a.entries - {o}, v.base);
    assert GetCoin(v.base, o) == Some(c);
    assert GetCoin(SpendCoin(a, o), o) == GetCoin(v.base, o);
  }

  /** A coin the database still has stays reported, as a spent one, after it is spent. */
  lemma SpentCoinIsStillReported(o: OutPoint, c: Coin)
    requires !c.IsSpent()
    ensures var v := SpendCoin(Cache(map[], Db(map[o := c])), o);
            GetCoin(v, o) == Some(EmptyCoin) && EmptyCoin.IsSpent() && Unspent(v, o) == None
  {
  }

  /** Exactly when a coin is still reported after it is spent: its entry is not FRESH, or the base reports it. */
  lemma ReportedAfterSpendIff(v: View, o: OutPoint)
    requires v.Cache?
    ensures GetCoin(SpendCoin(v, o), o).Some?
            <==> o in Fetch(v, o).entries && (!Fetch(v, o).entries[o].isFresh || GetCoin(v.base, o).Some?)
    ensures Unspent(SpendCoin(v, o), o).Some?
            <==> o in Fetch(v, o).entries && Fetch(v, o).entries[o].isFresh && Unspent(v.base, o).Some?
  {
    FetchShowsTheSame(v.base, o, o);
  }
}
