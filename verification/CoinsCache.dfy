/**
 `CCoinsViewCache` as an object over a backing view, refining the value-level stack of `CoinsSpec`.

 The structure of the stack is fixed when a cache is built, so its footprint and depth are constants;
 only the coin maps and the usage counters change.  Every method's new state is the value-level
 function of the old one, for the cache and for every layer below it, and `cachedCoinsUsage` stays the
 exact sum over the coins held.
 */
module CoinsCache {
  import opened Options
  import opened CoinsSpec
  import opened Maps

  class CoinsViewDb {
    var coins: map<OutPoint, Coin>

    constructor (coins: map<OutPoint, Coin>)
      ensures this.coins == coins
    {
      this.coins := coins;
    }

    /** Writes the dirty entries, erasing the spent ones, in whatever order the map yields them. */
    method BatchWrite(mapCoins: CoinMap)
      modifies this
      ensures coins == DbMerged(mapCoins, old(coins))
    {
      var todo := mapCoins.Keys;
      DbMergeNone(coins);
      assert mapCoins - todo == map[];
      while todo != {}
        invariant todo <= mapCoins.Keys
        invariant coins == DbMerged(mapCoins - todo, old(coins))
      {
        var o :| o in todo;
        var e := mapCoins[o];
        if e.isDirty {
          if e.coin.IsSpent() {
            coins := coins - {o};
          } else {
            coins := coins[o := e.coin];
          }
        }
        DbMergeOneMore(mapCoins - todo, old(coins), o, e);
        TakeOne(mapCoins, todo, o);
        todo := todo - {o};
      }
      assert mapCoins - todo == mapCoins;
    }
  }

  datatype Backend = OnDb(db: CoinsViewDb) | OnCache(cache: CoinsViewCache)

  /** Dynamic memory of a cached entry, given the memory of a coin. */
  ghost function EntryUsage(usage: Coin -> nat): (OutPoint, Entry) -> int {
    (o: OutPoint, e: Entry) => usage(e.coin) as int
  }

  class CoinsViewCache {
    const base: Backend
    const usage: Coin -> nat
    ghost const Repr: set<object>
    ghost const depth: nat

    var cacheCoins: CoinMap
    var cachedCoinsUsage: int

    ghost predicate Valid()
      decreases depth
    {
      && usage(EmptyCoin) == 0
      && match base
         case OnDb(db) => Repr == {this, db} && depth == 0
         case OnCache(c) =>
           && depth == c.depth + 1 && c.Valid()
           && this !in c.Repr && Repr == {this} + c.Repr
    }

    /** The objects below this cache. */
    ghost function BelowRepr(): set<object> {
      match base
      case OnDb(db) => {db}
      case OnCache(c) => c.Repr
    }

    ghost function Below(): View
      requires Valid()
      reads BelowRepr()
      decreases depth, 0
    {
      match base
      case OnDb(db) => Db(db.coins)
      case OnCache(c) => c.Abs()
    }

    /** The value this cache and everything under it stands for. */
    ghost function Abs(): View
      requires Valid()
      reads Repr
      decreases depth, 1
    {
      Cache(cacheCoins, Below())
    }

    /** Every usage counter from here down is exact. */
    ghost predicate Accounted()
      requires Valid()
      reads Repr
      decreases depth
    {
      && cachedCoinsUsage == Total(cacheCoins, EntryUsage(usage))
      && (base.OnCache? ==> base.cache.Accounted())
    }

    constructor (base: Backend, usage: Coin -> nat)
      requires base.OnCache? ==> base.cache.Valid()
      requires usage(EmptyCoin) == 0
      ensures Valid() && this.base == base && this.usage == usage && cacheCoins == map[]
      ensures fresh(this) && Repr == {this} + BelowRepr()
      ensures Abs() == Cache(map[], Below())
      ensures (base.OnCache? ==> base.cache.Accounted()) ==> Accounted()
    {
      this.base := base;
      this.usage := usage;
      cacheCoins := map[];
      cachedCoinsUsage := 0;
      ghost var below: set<object> := match base case OnDb(db) => {db} case OnCache(c) => c.Repr;
      Repr := {this} + below;
      depth := match base case OnDb(_) => 0 case OnCache(c) => c.depth + 1;
    }

    /** Reads a coin, filling every layer that had to ask; a spent coin from below is marked FRESH. */
    method FetchCoin(o: OutPoint) returns (found: bool)
      requires Valid() && Accounted()
      modifies Repr
      ensures Accounted()
      ensures Abs() == Fetch(old(Abs()), o)
      ensures found == (o in cacheCoins) == CoinsSpec.GetCoin(old(Abs()), o).Some?
      ensures found ==> cacheCoins[o].coin == CoinsSpec.GetCoin(old(Abs()), o).value
      decreases depth, 0
    {
      if o in cacheCoins {
        return true;
      }
      var tmp: Option<Coin>;
      match base {
        case OnDb(db) => tmp := Find(db.coins, o);
        case OnCache(c) => tmp := c.GetCoin(o);
      }
      if tmp.None? {
        return false;
      }
      var coin := tmp.value;
      StoreEntry(o, Entry(coin, false, coin.IsSpent()));
      found := true;
    }

    method GetCoin(o: OutPoint) returns (r: Option<Coin>)
      requires Valid() && Accounted()
      modifies Repr
      ensures Accounted()
      ensures Abs() == Fetch(old(Abs()), o)
      ensures r == CoinsSpec.GetCoin(old(Abs()), o)
      decreases depth, 1
    {
      var found := FetchCoin(o);
      r := if found then Some(cacheCoins[o].coin) else None;
    }

    method HaveCoin(o: OutPoint) returns (have: bool)
      requires Valid() && Accounted()
      modifies Repr
      ensures Accounted()
      ensures Abs() == Fetch(old(Abs()), o)
      ensures have == Unspent(old(Abs()), o).Some?
    {
      var found := FetchCoin(o);
      have := found && !cacheCoins[o].coin.IsSpent();
    }

    /** `ok` is false where the code throws; the usage counter is then short by the coin it refused to replace. */
    method AddCoin(o: OutPoint, coin: Coin, possibleOverwrite: bool) returns (ok: bool)
      requires Valid() && Accounted() && !coin.IsSpent()
      modifies this
      ensures ok == CoinsSpec.AddCoin(old(Abs()), o, coin, possibleOverwrite).Some?
      ensures ok ==> Accounted() && Abs() == CoinsSpec.AddCoin(old(Abs()), o, coin, possibleOverwrite).value
      ensures !ok ==> o in old(cacheCoins) && Abs() == old(Abs())
                      && cachedCoinsUsage == old(cachedCoinsUsage) - usage(cacheCoins[o].coin)
    {
      if coin.IsIgnored() {
        return true;
      }
      var prior := if o in cacheCoins then cacheCoins[o] else DefaultEntry;
      if o in cacheCoins {
        cachedCoinsUsage := cachedCoinsUsage - usage(prior.coin);
      }
      var setFresh := false;
      if !possibleOverwrite {
        if !prior.coin.IsSpent() {
          return false;
        }
        setFresh := !prior.isDirty;
      }
      StoreEntry(o, Entry(coin, true, prior.isFresh || setFresh));
      ok := true;
    }

    /** Stores an entry whose predecessor, if any, is already off the usage counter. */
    method StoreEntry(o: OutPoint, e: Entry)
      requires Valid() && (base.OnCache? ==> base.cache.Accounted())
      requires cachedCoinsUsage
               == Total(cacheCoins, EntryUsage(usage)) - if o in cacheCoins then usage(cacheCoins[o].coin) else 0
      modifies this
      ensures Accounted()
      ensures Abs() == Cache(old(cacheCoins)[o := e], old(Below()))
    {
      TotalInsert(cacheCoins, EntryUsage(usage), o, e);
      cacheCoins := cacheCoins[o := e];
      cachedCoinsUsage := cachedCoinsUsage + usage(e.coin);
    }

    /** Spends a coin and hands out what was there. */
    method SpendCoin(o: OutPoint) returns (moveout: Option<Coin>)
      requires Valid() && Accounted()
      modifies Repr
      ensures Accounted()
      ensures Abs() == CoinsSpec.SpendCoin(old(Abs()), o)
      ensures moveout == CoinsSpec.GetCoin(old(Abs()), o)
    {
      var found := FetchCoin(o);
      if !found {
        return None;
      }
      moveout := Some(cacheCoins[o].coin);
      ClearEntry(o);
    }

    /** Erases a FRESH entry; leaves any other as a spent, dirty one. */
    method ClearEntry(o: OutPoint)
      requires Valid() && Accounted() && o in cacheCoins
      modifies this
      ensures Accounted()
      ensures Abs() == Cache(if old(cacheCoins)[o].isFresh then old(cacheCoins) - {o}
                             else old(cacheCoins)[o := Entry(EmptyCoin, true, false)],
                             old(Below()))
    {
      cachedCoinsUsage := cachedCoinsUsage - usage(cacheCoins[o].coin);
      if cacheCoins[o].isFresh {
        TotalRemove(cacheCoins, EntryUsage(usage), o);
        cacheCoins := cacheCoins - {o};
      } else {
        TotalInsert(cacheCoins, EntryUsage(usage), o, Entry(EmptyCoin, true, false));
        cacheCoins := cacheCoins[o := Entry(EmptyCoin, true, false)];
      }
    }

    method Uncache(o: OutPoint)
      requires Valid() && Accounted()
      modifies this
      ensures Accounted()
      ensures Abs() == CoinsSpec.Uncache(old(Abs()), o)
    {
      if o in cacheCoins && !cacheCoins[o].isDirty && !cacheCoins[o].isFresh {
        TotalRemove(cacheCoins, EntryUsage(usage), o);
        cachedCoinsUsage := cachedCoinsUsage - usage(cacheCoins[o].coin);
        cacheCoins := cacheCoins - {o};
      }
    }

    /** Writes one entry of a child cache here; the cache map becomes the merge of the two. */
    method WriteEntry(o: OutPoint, e: Entry) returns (ok: bool)
      requires Valid() && Accounted()
      modifies this
      ensures ok == !Misapplied(e, Find(old(cacheCoins), o))
      ensures Accounted()
      ensures ok ==> cacheCoins == Merged(map[o := e], old(cacheCoins))
      ensures !ok ==> cacheCoins == old(cacheCoins)
    {
      MergedOne(o, e, cacheCoins);
      if !e.isDirty {
        return true;
      }
      if o !in cacheCoins {
        if !(e.isFresh && e.coin.IsSpent()) {
          TotalInsert(cacheCoins, EntryUsage(usage), o, Entry(e.coin, true, e.isFresh));
          cacheCoins := cacheCoins[o := Entry(e.coin, true, e.isFresh)];
          cachedCoinsUsage := cachedCoinsUsage + usage(e.coin);
        }
      } else {
        var us := cacheCoins[o];
        if e.isFresh && !us.coin.IsSpent() {
          return false;
        }
        cachedCoinsUsage := cachedCoinsUsage - usage(us.coin);
        if us.isFresh && e.coin.IsSpent() {
          TotalRemove(cacheCoins, EntryUsage(usage), o);
          cacheCoins := cacheCoins - {o};
        } else {
          TotalInsert(cacheCoins, EntryUsage(usage), o, Entry(e.coin, true, us.isFresh));
          cacheCoins := cacheCoins[o := Entry(e.coin, true, us.isFresh)];
          cachedCoinsUsage := cachedCoinsUsage + usage(e.coin);
        }
      }
      ok := true;
    }

    /** The batch write loop, over the child's entries in arbitrary order; false where it throws. */
    method BatchWrite(mapCoins: CoinMap) returns (ok: bool)
      requires Valid() && Accounted()
      modifies this
      ensures Accounted()
      ensures ok == CoinsSpec.BatchWrite(old(Abs()), mapCoins).Some?
      ensures ok ==> Abs() == CoinsSpec.BatchWrite(old(Abs()), mapCoins).value
    {
      var todo := mapCoins.Keys;
      assert mapCoins - todo == map[];
      assert cacheCoins == Merged(map[], cacheCoins);
      while todo != {}
        invariant todo <= mapCoins.Keys
        invariant Accounted()
        invariant !AnyMisapplied(mapCoins - todo, old(cacheCoins))
        invariant cacheCoins == Merged(mapCoins - todo, old(cacheCoins))
        invariant Below() == old(Below())
      {
        var o :| o in todo;
        MergedFind(mapCoins - todo, old(cacheCoins), o);
        ok := WriteEntry(o, mapCoins[o]);
        if !ok {
          assert Misapplied(mapCoins[o], Find(old(cacheCoins), o));
          return;
        }
        MergeOneMore(mapCoins - todo, old(cacheCoins), o, mapCoins[o]);
        TakeOne(mapCoins, todo, o);
        todo := todo - {o};
      }
      assert mapCoins - todo == mapCoins;
      ok := true;
    }

    /** Pushes this cache's entries to its base and empties it; false where the base throws. */
    method Flush() returns (ok: bool)
      requires Valid() && Accounted()
      modifies Repr
      ensures ok == CoinsSpec.Flush(old(Abs())).Some?
      ensures ok ==> Accounted() && Abs() == CoinsSpec.Flush(old(Abs())).value
    {
      match base {
        case OnDb(db) =>
          db.BatchWrite(cacheCoins);
          ok := true;
        case OnCache(c) =>
          ok := c.BatchWrite(cacheCoins);
      }
      cacheCoins := map[];
      cachedCoinsUsage := 0;
    }
  }

  /** Merging a single entry changes the parent's map at that outpoint only. */
  lemma MergedOne(o: OutPoint, e: Entry, parent: CoinMap)
    ensures Merged(map[o := e], parent)
            == match MergeEntry(e, Find(parent, o))
               case None => parent - {o}
               case Some(m) => parent[o := m]
    ensures o !in parent ==> parent - {o} == parent
    ensures o in parent ==> parent[o := parent[o]] == parent
  {
  }

  lemma DbMergeNone(coins: map<OutPoint, Coin>)
    ensures DbMerged(map[], coins) == coins
  {
  }

  lemma DbMergeOneMore(done: CoinMap, coins: map<OutPoint, Coin>, o: OutPoint, e: Entry)
    requires o !in done
    ensures DbMerged(done[o := e], coins)
            == if !e.isDirty then DbMerged(done, coins)
               else if e.coin.IsSpent() then DbMerged(done, coins) - {o}
               else DbMerged(done, coins)[o := e.coin]
  {
  }

  /** Merging one more entry extends a merge; order does not matter because the keys are distinct. */
  lemma MergeOneMore(done: CoinMap, parent: CoinMap, o: OutPoint, e: Entry)
    requires o !in done
    ensures Merged(map[o := e], Merged(done, parent)) == Merged(done[o := e], parent)
  {
    var a, b := Merged(map[o := e], Merged(done, parent)), Merged(done[o := e], parent);
    forall p ensures Find(a, p) == Find(b, p) {
      MergedFind(map[o := e], Merged(done, parent), p);
      MergedFind(done, parent, p);
      MergedFind(done[o := e], parent, p);
    }
    forall p ensures p in a <==> p in b {
      assert Find(a, p) == Find(b, p);
    }
    forall p | p in a ensures a[p] == b[p] {
      assert Find(a, p) == Find(b, p);
    }
  }
}
