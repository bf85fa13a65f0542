/**
 Committing into something other than the parent.  The outermost transaction of the special-transaction
 database, `src/evo/evodb.cpp`, reads through to the database but commits into a batch, which the database
 applies afterwards; the model is `CDBBatch` of `src/dbwrapper.h` as the list of its changes.
 */
module DbBatch {
  import opened Maps
  import opened DbTransactionSpec
  import opened DbTransaction

  // ----- a commit into any target -----

  /** All deletes, then all writes, go to the target. */
  ghost function CommitInto(target: Store, s: Store): Store
    requires s.Tx?
  {
    WriteMany(EraseMany(target, s.deletes), s.writes)
  }

  /** The target then shows its own contents overlaid; so what the transaction showed, if it showed the same base. */
  lemma CommitIntoSpec(target: Store, s: Store)
    requires Ok(target) && Ok(s) && s.Tx?
    ensures var t := CommitInto(target, s);
            && Ok(t) && View(t) == (View(target) - s.deletes) + s.writes
            && (View(target) == View(s.parent) ==> View(t) == View(s))
  {
    hide Usage, EraseMany, WriteMany;
    EraseManySpec(target, s.deletes);
    WriteManySpec(EraseMany(target, s.deletes), s.writes);
  }

  // ----- batches -----

  datatype Change = Put(key: Key, value: Value) | Delete(key: Key)

  function Changed(data: Contents, c: Change): Contents {
    match c
    case Put(k, v) => data[k := v]
    case Delete(k) => data - {k}
  }

  /** What the database holds once a batch is applied to it, change by change. */
  function Applied(data: Contents, batch: seq<Change>): Contents {
    if batch == [] then data else Changed(Applied(data, batch[..|batch| - 1]), batch[|batch| - 1])
  }

  lemma {:induction false} AppliedTwice(data: Contents, batch: seq<Change>, more: seq<Change>)
    ensures Applied(data, batch + more) == Applied(Applied(data, batch), more)
    decreases |more|
  {
    hide Changed;
    if more == [] {
      assert batch + more == batch;
    } else {
      var init := more[..|more| - 1];
      AppliedTwice(data, batch, init);
      assert (batch + more)[..|batch + more| - 1] == batch + init;
    }
  }

  /** Applied to anything, the batch takes away some keys and then writes some entries. */
  ghost predicate Amounts(batch: seq<Change>, deletes: set<Key>, writes: Contents) {
    forall data :: Applied(data, batch) == (data - deletes) + writes
  }

  lemma AmountsNone()
    ensures Amounts([], {}, map[])
  {
  }

  lemma AppliedOneMore(data: Contents, batch: seq<Change>, c: Change)
    ensures Applied(data, batch + [c]) == Changed(Applied(data, batch), c)
  {
    hide Changed;
    assert (batch + [c])[..|batch|] == batch;
  }

  lemma DeleteMore(data: Contents, deletes: set<Key>, k: Key)
    ensures Changed((data - deletes) + map[], Delete(k)) == (data - (deletes + {k})) + map[]
  {
  }

  lemma AmountsDelete(batch: seq<Change>, deletes: set<Key>, k: Key)
    requires Amounts(batch, deletes, map[])
    ensures Amounts(batch + [Delete(k)], deletes + {k}, map[])
  {
    hide Applied, Changed;
    forall data ensures Applied(data, batch + [Delete(k)]) == (data - (deletes + {k})) + map[] {
      AppliedOneMore(data, batch, Delete(k));
      DeleteMore(data, deletes, k);
    }
  }

  lemma PutMore(data: Contents, writes: Contents, k: Key, v: Value)
    ensures Changed(data + writes, Put(k, v)) == data + writes[k := v]
  {
  }

  lemma AmountsPut(batch: seq<Change>, deletes: set<Key>, writes: Contents, k: Key, v: Value)
    requires Amounts(batch, deletes, writes)
    ensures Amounts(batch + [Put(k, v)], deletes, writes[k := v])
  {
    hide Applied, Changed;
    forall data ensures Applied(data, batch + [Put(k, v)]) == (data - deletes) + writes[k := v] {
      AppliedOneMore(data, batch, Put(k, v));
      PutMore(data - deletes, writes, k, v);
    }
  }

  /**
   A commit into a batch that was empty, and then applied to the database, is the commit into the database
   itself; in between, a reader of the transaction sees the database alone.
   */
  lemma BatchIsCommit(s: Store, batch: seq<Change>)
    requires s.Tx? && s.parent.Db? && Ok(s) && Amounts(batch, s.deletes, s.writes)
    ensures Tx(Db(Applied(s.parent.data, batch)), map[], {}, 0) == Commit(s)
    ensures Applied(s.parent.data, batch) == View(s)
    ensures View(Clear(s)) == s.parent.data
  {
    hide Usage;
    var none: Contents := map[];
    assert (s.parent.data - {}) + none == s.parent.data;
  }

  lemma EmptyLayer(s: Store)
    requires Ok(s)
    ensures var t := Tx(s, map[], {}, 0); Ok(t) && View(t) == View(s)
  {
    hide Usage;
    UsageEmpty();
    var v, none: Contents := View(s), map[];
    assert (v - {}) + none == v;
  }

  lemma OuterOk(s: Store)
    requires s.Tx? && Ok(s)
    ensures Ok(s.parent)
  {
  }

  /** An inner layer that holds nothing shows what the commit of the outer one leaves it with. */
  lemma RootCommitted(s: Store, batch: seq<Change>)
    requires s.Tx? && s.parent.Tx? && s.parent.parent.Db? && Ok(s) && s.writes == map[] && s.deletes == {}
    requires Amounts(batch, s.parent.deletes, s.parent.writes)
    ensures var data := Applied(s.parent.parent.data, batch);
            var t := Tx(Tx(Db(data), map[], {}, 0), map[], {}, s.memory);
            && data == View(s) && t == CommitAt(s, 1) && Ok(t) && View(t) == View(s)
  {
    hide Usage, Amounts, Commit;
    var v, none: Contents := View(s.parent), map[];
    assert (v - {}) + none == v;
    UsageEmpty();
    BatchIsCommit(s.parent, batch);
    CommitSpec(s.parent);
  }

  // ----- the two transactions over one database -----

  class EvoDb {
    const db: Database
    const root: Transaction
    const cur: Transaction

    var rootBatch: seq<Change>

    ghost predicate Linked()
    {
      && root.Linked() && cur.Linked() && root.parent == OnDb(db) && cur.parent == OnTx(root)
      && this !in cur.Repr
    }

    /** Both transactions and the database, the inner transaction first. */
    ghost function Abs(): Store
      requires Linked()
      reads cur.Repr
    {
      cur.Abs()
    }

    lemma Layers()
      requires Linked()
      ensures cur.Repr == {cur, root, db}
      ensures root.Abs() == Tx(Db(db.data), root.writes, root.deletes, root.memoryUsage)
      ensures Abs() == Tx(root.Abs(), cur.writes, cur.deletes, cur.memoryUsage)
    {
      assert cur.Below() == root.Abs();
    }

    ghost predicate Valid()
      reads this, cur.Repr
    {
      Linked() && Ok(Abs()) && rootBatch == []
    }

    constructor (db: Database)
      ensures Linked() && Valid() && this.db == db
      ensures View(Abs()) == db.data
    {
      this.db := db;
      var r := new Transaction(OnDb(db));
      var c := new Transaction(OnTx(r));
      root, cur := r, c;
      rootBatch := [];
      new;
      assert root.Abs() == Tx(Db(db.data), map[], {}, 0);
      assert Abs() == Tx(root.Abs(), map[], {}, 0);
      EmptyLayer(Db(db.data));
      EmptyLayer(root.Abs());
    }

    method CommitCurTransaction()
      requires Valid()
      modifies cur.Repr
      ensures Valid() && Abs() == Commit(old(Abs())) && View(Abs()) == old(View(Abs()))
    {
      CommitSpec(Abs());
      cur.CommitAll();
    }

    /** What the inner transaction changed is forgotten; the outer one keeps what it has. */
    method RollbackCurTransaction()
      requires Valid()
      modifies cur
      ensures Valid() && View(Abs()) == old(View(root.Abs()))
    {
      ClearSpec(Abs());
      cur.ClearAll();
    }

    /** The loops of the commit, over keys in any order, with the batch as their target. */
    method CommitIntoBatch()
      requires Linked() && Ok(root.Abs())
      modifies this`rootBatch, root
      ensures Linked() && old(rootBatch) <= rootBatch
      ensures Amounts(rootBatch[|old(rootBatch)|..], old(root.deletes), old(root.writes))
      ensures root.Abs() == Clear(old(root.Abs()))
    {
      ghost var n := |rootBatch|;
      var todo := root.deletes;
      AmountsNone();
      assert root.deletes - todo == {} && rootBatch[n..] == [];
      while todo != {}
        modifies this`rootBatch
        invariant todo <= root.deletes && old(rootBatch) <= rootBatch
        invariant Amounts(rootBatch[n..], root.deletes - todo, map[])
      {
        hide Amounts;
        var k :| k in todo;
        AmountsDelete(rootBatch[n..], root.deletes - todo, k);
        ghost var before := rootBatch;
        rootBatch := rootBatch + [Delete(k)];
        assert rootBatch[n..] == before[n..] + [Delete(k)];
        assert root.deletes - (todo - {k}) == root.deletes - todo + {k};
        todo := todo - {k};
      }
      assert root.deletes - todo == root.deletes;
      var left := root.writes.Keys;
      assert root.writes - left == map[];
      while left != {}
        modifies this`rootBatch
        invariant left <= root.writes.Keys && old(rootBatch) <= rootBatch
        invariant Amounts(rootBatch[n..], root.deletes, root.writes - left)
      {
        hide Amounts;
        var k :| k in left;
        AmountsPut(rootBatch[n..], root.deletes, root.writes - left, k, root.writes[k]);
        TakeOne(root.writes, left, k);
        ghost var before := rootBatch;
        rootBatch := rootBatch + [Put(k, root.writes[k])];
        assert rootBatch[n..] == before[n..] + [Put(k, root.writes[k])];
        left := left - {k};
      }
      assert root.writes - left == root.writes;
      root.ClearAll();
    }

    /**
     The outer transaction goes into the batch and the batch into the database, which then holds all that
     either transaction showed; no reader sees a difference.  The code asserts that the inner one is empty.
     */
    method CommitRootTransaction()
      requires Valid() && cur.writes == map[] && cur.deletes == {}
      modifies this`rootBatch, root, db
      ensures Valid() && db.data == old(View(Abs())) && View(Abs()) == old(View(Abs()))
      ensures Abs() == CommitAt(old(Abs()), 1)
    {
      ghost var s := Abs();
      Layers();
      OuterOk(s);
      hide Amounts, Ok, CommitAt, View, Transaction.Linked, Transaction.Abs;
      CommitIntoBatch();
      Layers();
      assert rootBatch[0..] == rootBatch;
      RootCommitted(s, rootBatch);
      db.data := WriteBatch(db.data, rootBatch);
      rootBatch := [];
      Layers();
    }
  }

  /** The database takes the changes of a batch in their order. */
  method WriteBatch(data: Contents, batch: seq<Change>) returns (r: Contents)
    ensures r == Applied(data, batch)
  {
    r := data;
    for i := 0 to |batch|
      invariant r == Applied(data, batch[..i])
    {
      assert batch[..i + 1][..i] == batch[..i];
      r := match batch[i] case Put(k, v) => r[k := v] case Delete(k) => r - {k};
    }
    assert batch[..|batch|] == batch;
  }
}
