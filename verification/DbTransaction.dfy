/** `CDBTransaction` and its iterator as objects over a database or another transaction. */
module DbTransaction {
  import opened Options
  import opened Maps
  import opened DbTransactionSpec
  import opened DbIteratorSpec

  class Database {
    var data: Contents

    constructor (data: Contents)
      ensures this.data == data
    {
      this.data := data;
    }
  }

  datatype Parent = OnDb(db: Database) | OnTx(tx: Transaction)

  class Transaction {
    const parent: Parent
    ghost const Repr: set<object>
    ghost const depth: nat

    var writes: Contents
    var deletes: set<Key>
    var memoryUsage: int

    ghost predicate Linked()
      decreases depth
    {
      match parent
      case OnDb(db) => Repr == {this, db} && depth == 0
      case OnTx(tx) => depth == tx.depth + 1 && tx.Linked() && this !in tx.Repr && Repr == {this} + tx.Repr
    }

    ghost function BelowRepr(): set<object> {
      match parent
      case OnDb(db) => {db}
      case OnTx(tx) => tx.Repr
    }

    ghost function Below(): Store
      requires Linked()
      reads BelowRepr()
      decreases depth, 0
    {
      match parent
      case OnDb(db) => Db(db.data)
      case OnTx(tx) => tx.Abs()
    }

    /** This transaction and everything under it, as a value. */
    ghost function Abs(): Store
      requires Linked()
      reads Repr
      decreases depth, 1
    {
      Tx(Below(), writes, deletes, memoryUsage)
    }

    constructor (parent: Parent)
      requires parent.OnTx? ==> parent.tx.Linked()
      ensures Linked() && this.parent == parent && fresh(this) && Repr == {this} + BelowRepr()
      ensures Abs() == Tx(Below(), map[], {}, 0)
    {
      this.parent := parent;
      writes, deletes, memoryUsage := map[], {}, 0;
      ghost var below: set<object> := match parent case OnDb(db) => {db} case OnTx(tx) => tx.Repr;
      Repr := {this} + below;
      depth := match parent case OnDb(_) => 0 case OnTx(tx) => tx.depth + 1;
    }

    method WriteKey(k: Key, v: Value)
      requires Linked()
      modifies this
      ensures Abs() == Write(old(Abs()), k, v)
    {
      if k in deletes {
        deletes := deletes - {k};
        memoryUsage := memoryUsage - |k|;
      } else {
        assert deletes - {k} == deletes;
      }
      if k in writes {
        memoryUsage := memoryUsage - (|k| + writes[k].size);
      }
      writes := writes[k := v];
      memoryUsage := memoryUsage + |k| + v.size;
    }

    method ReadKey(k: Key) returns (r: Option<Value>)
      requires Linked()
      ensures r == Read(Abs(), k)
      decreases depth
    {
      if k in deletes {
        return None;
      }
      if k in writes {
        return Some(writes[k]);
      }
      match parent {
        case OnDb(db) => r := Find(db.data, k);
        case OnTx(tx) => r := tx.ReadKey(k);
      }
    }

    method ExistsKey(k: Key) returns (r: bool)
      requires Linked()
      ensures r == Exists(Abs(), k)
      decreases depth
    {
      if k in deletes {
        return false;
      }
      if k in writes {
        return true;
      }
      match parent {
        case OnDb(db) => r := k in db.data;
        case OnTx(tx) => r := tx.ExistsKey(k);
      }
    }

    method EraseKey(k: Key)
      requires Linked()
      modifies this
      ensures Abs() == Erase(old(Abs()), k)
    {
      if k in writes {
        memoryUsage := memoryUsage - (|k| + writes[k].size);
        writes := writes - {k};
      } else {
        assert writes - {k} == writes;
      }
      if k !in deletes {
        deletes := deletes + {k};
        memoryUsage := memoryUsage + |k|;
      } else {
        assert deletes + {k} == deletes;
      }
    }

    method ClearAll()
      requires Linked()
      modifies this
      ensures Abs() == Clear(old(Abs()))
    {
      writes, deletes, memoryUsage := map[], {}, 0;
    }

    method EraseBelow(k: Key)
      requires Linked()
      modifies BelowRepr()
      ensures Below() == Erase(old(Below()), k)
    {
      match parent {
        case OnDb(db) => db.data := db.data - {k};
        case OnTx(tx) => tx.EraseKey(k);
      }
    }

    method WriteBelow(k: Key, v: Value)
      requires Linked()
      modifies BelowRepr()
      ensures Below() == Write(old(Below()), k, v)
    {
      match parent {
        case OnDb(db) => db.data := db.data[k := v];
        case OnTx(tx) => tx.WriteKey(k, v);
      }
    }

    /** All deletes and all writes, in any order of keys, go to the parent; then nothing is left here. */
    method CommitAll()
      requires Linked() && Ok(Abs())
      modifies Repr
      ensures Abs() == Commit(old(Abs()))
    {
      hide Ok, Write, Erase, EraseMany, WriteMany;
      ghost var below := Below();
      BelowOk(Abs());
      var todo := deletes;
      EraseManyNone(below);
      assert deletes - todo == {};
      while todo != {}
        invariant todo <= deletes && writes == old(writes) && deletes == old(deletes)
        invariant Below() == EraseMany(below, deletes - todo)
      {
        var k :| k in todo;
        EraseOneMore(below, deletes - todo, k);
        EraseBelow(k);
        assert deletes - (todo - {k}) == (deletes - todo) + {k};
        todo := todo - {k};
      }
      assert deletes - todo == deletes;
      ghost var mid := Below();
      EraseManySpec(below, deletes);
      WriteManyNone(mid);
      var left := writes.Keys;
      assert writes - left == map[];
      while left != {}
        invariant left <= writes.Keys && writes == old(writes) && deletes == old(deletes)
        invariant Below() == WriteMany(mid, writes - left)
      {
        var k :| k in left;
        WriteOneMore(mid, writes - left, k, writes[k]);
        TakeOne(writes, left, k);
        WriteBelow(k, writes[k]);
        left := left - {k};
      }
      assert writes - left == writes;
      ClearAll();
    }
  }

  lemma Overlay(s: Store)
    requires s.Tx? && Ok(s)
    ensures View(s) == (View(s.parent) - s.deletes) + s.writes && s.writes.Keys !! s.deletes
  {
    hide Usage;
  }

  lemma BelowOk(s: Store)
    requires Ok(s) && s.Tx?
    ensures Ok(s.parent)
  {
  }

  // ----- the iterator -----

  /** Library lookup: the first key that is not below `key`. */
  method LowerBoundOf(ks: seq<Key>, key: Key) returns (i: nat)
    requires Ascending(ks)
    ensures LowerBound(ks, key, i)
  {
    i := 0;
    while i < |ks| && Less(ks[i], key)
      invariant i <= |ks| && forall j | 0 <= j < i :: Less(ks[j], key)
    {
      i := i + 1;
    }
  }

  class TransactionIterator {
    const transaction: Transaction
    const written: seq<Key>
    const parentKeys: seq<Key>
    var transactionIt: nat
    var parentIt: nat
    var parentKey: Key
    var curIsParent: bool

    /** `written` and `parentKeys` are the keys of the transaction's writes and of its parent, in key order. */
    constructor (transaction: Transaction, written: seq<Key>, parentKeys: seq<Key>)
      requires Ascending(written) && Ascending(parentKeys) && AsSet(written) == transaction.writes.Keys
      ensures this.transaction == transaction && this.written == written && this.parentKeys == parentKeys
      ensures Shaped(State())
    {
      this.transaction := transaction;
      this.written := written;
      this.parentKeys := parentKeys;
      transactionIt := |written|;
      parentIt := 0;
      parentKey := [];
      curIsParent := false;
    }

    ghost function State(): Iter
      reads this, transaction
    {
      Iter(written, parentKeys, transaction.deletes + transaction.writes.Keys, transactionIt, parentIt, curIsParent)
    }

    /** At rest: on a key to show, with the parent's key at hand. */
    ghost predicate Ready()
      reads this, transaction
    {
      Settled(State()) && (parentIt < |parentKeys| ==> parentKey == parentKeys[parentIt])
    }

    /** The keys still to come, and the current one. */
    ghost function Ahead(): set<Key>
      requires Ready()
      reads this, transaction
    {
      Remaining(State())
    }

    ghost function CurrentKey(): Key
      requires Ready() && IsValid()
      reads this, transaction
    {
      Current(State())
    }

    predicate IsValid()
      reads this
    {
      transactionIt < |written| || parentIt < |parentKeys|
    }

    method SkipDeletedAndOverwritten()
      requires Shaped(State())
      modifies this`parentIt, this`parentKey
      ensures Shaped(State()) && Remaining(State()) == old(Remaining(State()))
      ensures parentIt < |parentKeys| ==> parentKey == parentKeys[parentIt] && parentKey !in State().hidden
    {
      while parentIt < |parentKeys|
        invariant Shaped(State()) && Remaining(State()) == old(Remaining(State()))
        decreases |parentKeys| - parentIt
      {
        parentKey := parentKeys[parentIt];
        if parentKey !in transaction.deletes && parentKey !in transaction.writes {
          break;
        }
        SkipKeeps(State());
        parentIt := parentIt + 1;
      }
    }

    method DecideCur()
      requires Shaped(State())
      requires parentIt < |parentKeys| ==> parentKey == parentKeys[parentIt] && parentKey !in State().hidden
      modifies this`curIsParent
      ensures Ready() && Remaining(State()) == old(Remaining(State()))
    {
      if transactionIt < |written| && !(parentIt < |parentKeys|) {
        curIsParent := false;
      } else if transactionIt == |written| && parentIt < |parentKeys| {
        curIsParent := true;
      } else if transactionIt < |written| && parentIt < |parentKeys| {
        if Less(written[transactionIt], parentKey) {
          curIsParent := false;
        } else {
          curIsParent := true;
        }
      }
    }

    method SeekToFirst()
      requires Shaped(State()) && transaction.Linked() && this !in transaction.Repr && Ok(transaction.Abs())
      requires AsSet(written) == transaction.writes.Keys && AsSet(parentKeys) == View(transaction.Below()).Keys
      modifies this
      ensures Ready() && Ahead() == View(transaction.Abs()).Keys
    {
      hide View, Ok, Less, Ascending;
      Overlay(transaction.Abs());
      transactionIt := 0;
      parentIt := 0;
      StartCoversOverlay(State(), View(transaction.Below()), transaction.writes, transaction.deletes);
      SkipDeletedAndOverwritten();
      DecideCur();
    }

    method Seek(key: Key)
      requires Shaped(State()) && transaction.Linked() && this !in transaction.Repr && Ok(transaction.Abs())
      requires AsSet(written) == transaction.writes.Keys && AsSet(parentKeys) == View(transaction.Below()).Keys
      modifies this
      ensures Ready() && Ahead() == set k | k in View(transaction.Abs()).Keys && !Less(k, key)
    {
      hide View, Ok, Less, Ascending, LowerBound;
      Overlay(transaction.Abs());
      transactionIt := LowerBoundOf(written, key);
      parentIt := LowerBoundOf(parentKeys, key);
      SeekCoversRest(State(), key, View(transaction.Below()), transaction.writes, transaction.deletes);
      SkipDeletedAndOverwritten();
      DecideCur();
    }

    method Next()
      requires Ready()
      modifies this
      ensures Ready()
      ensures old(IsValid()) ==> Ahead() == old(Ahead() - {CurrentKey()})
      ensures !old(IsValid()) ==> Ahead() == old(Ahead())
    {
      if transactionIt == |written| && !(parentIt < |parentKeys|) {
        return;
      }
      AdvanceRemoves(State());
      if curIsParent {
        parentIt := parentIt + 1;
        SkipDeletedAndOverwritten();
      } else {
        transactionIt := transactionIt + 1;
      }
      DecideCur();
    }

    /** The current key is the least of those to come; there is none exactly when none are to come. */
    method GetKey() returns (k: Option<Key>)
      requires Ready()
      ensures Found(k, Ahead())
      ensures k.Some? ==> IsValid() && k.value == CurrentKey()
    {
      if !IsValid() {
        assert written[transactionIt..] == [] && parentKeys[parentIt..] == [];
        return None;
      }
      k := Some(if curIsParent then parentKey else written[transactionIt]);
      assert k.value in Remaining(State()) by {
        if transactionIt < |written| { assert written[transactionIt..][0] == written[transactionIt]; }
        if parentIt < |parentKeys| { assert parentKeys[parentIt..][0] == parentKeys[parentIt]; }
      }
      forall j | j in Remaining(State()) ensures j == k.value || Less(k.value, j) {
        CurrentIsLeast(State(), j);
      }
    }
  }

  // ----- visiting everything -----

  lemma AscendingPush(ks: seq<Key>, k: Key)
    requires Ascending(ks) && forall j | j in AsSet(ks) :: Less(j, k)
    ensures Ascending(ks + [k]) && AsSet(ks + [k]) == AsSet(ks) + {k}
  {
    forall i | 0 <= i < |ks| ensures Less(ks[i], k) {
      assert ks[i] in AsSet(ks);
    }
  }

  /** The keys of a set in key order, as an ordered container lists them. */
  method InOrder(keys: set<Key>) returns (ks: seq<Key>)
    ensures Ascending(ks) && AsSet(ks) == keys
  {
    hide Less, Ascending;
    ks := [];
    var todo := keys;
    NothingAscends();
    while todo != {}
      invariant Ascending(ks) && AsSet(ks) == keys - todo && todo <= keys
      invariant forall j, k | j in AsSet(ks) && k in todo :: Less(j, k)
    {
      var k := Least(todo);
      AscendingPush(ks, k);
      ks := ks + [k];
      todo := todo - {k};
    }
  }

  lemma NothingAscends()
    ensures Ascending([])
  {
  }

  method Least(keys: set<Key>) returns (least: Key)
    requires keys != {}
    ensures least in keys && forall k | k in keys && k != least :: Less(least, k)
  {
    least :| least in keys;
    var todo := keys - {least};
    while todo != {}
      invariant todo <= keys && least in keys && least !in todo
      invariant forall k | k in keys - todo && k != least :: Less(least, k)
    {
      var k :| k in todo;
      todo := todo - {k};
      LessTotal(k, least);
      if Less(k, least) {
        forall j | j in keys - todo && j != k ensures Less(k, j) {
          if j != least {
            LessTransitive(k, least, j);
          }
        }
        least := k;
      }
    }
  }

  /** Step through an iterator from the start: every key of the overlay once, in ascending order, with its value. */
  method VisitAll(it: TransactionIterator) returns (ks: seq<Key>, vs: seq<Value>)
    requires Shaped(it.State()) && it.transaction.Linked() && it !in it.transaction.Repr && Ok(it.transaction.Abs())
    requires AsSet(it.written) == it.transaction.writes.Keys
    requires AsSet(it.parentKeys) == View(it.transaction.Below()).Keys
    modifies it
    ensures Ascending(ks) && AsSet(ks) == View(it.transaction.Abs()).Keys && |vs| == |ks|
    ensures forall i | 0 <= i < |ks| ::
              ks[i] in View(it.transaction.Abs()) && vs[i] == View(it.transaction.Abs())[ks[i]]
  {
    hide *;
    ghost var view := View(it.transaction.Abs());
    it.SeekToFirst();
    ks, vs := [], [];
    VisitedNone(it.Ahead(), view);
    var k := it.GetKey();
    while k.Some?
      invariant it.Ready() && Ok(it.transaction.Abs()) && view == View(it.transaction.Abs())
      invariant Found(k, it.Ahead()) && Visited(ks, vs, it.Ahead(), view)
      invariant k.Some? ==> it.IsValid() && it.CurrentKey() == k.value
      decreases it.Ahead()
    {
      FoundMeans(k, it.Ahead());
      ks, vs := VisitOne(it, k.value, ks, vs, view);
      k := it.GetKey();
    }
    FoundMeans(k, it.Ahead());
    VisitedAll(ks, vs, view);
  }

  /** The least key ahead, or none when there is none. */
  ghost predicate Found(k: Option<Key>, ahead: set<Key>) {
    match k
    case None => ahead == {}
    case Some(key) => key in ahead && forall j | j in ahead :: j == key || Less(key, j)
  }

  lemma FoundMeans(k: Option<Key>, ahead: set<Key>)
    requires Found(k, ahead)
    ensures k.None? ==> ahead == {}
    ensures k.Some? ==> k.value in ahead
  {
  }

  method VisitOne(it: TransactionIterator, k: Key, ks: seq<Key>, vs: seq<Value>, ghost view: Contents)
    returns (moreKeys: seq<Key>, moreValues: seq<Value>)
    requires it.Ready() && it.transaction.Linked() && it !in it.transaction.Repr && Ok(it.transaction.Abs())
    requires view == View(it.transaction.Abs()) && it.IsValid() && it.CurrentKey() == k
    requires Found(Some(k), it.Ahead()) && Visited(ks, vs, it.Ahead(), view)
    modifies it
    ensures it.Ready() && it.transaction.Abs() == old(it.transaction.Abs())
    ensures it.Ahead() == old(it.Ahead()) - {k} && Visited(moreKeys, moreValues, it.Ahead(), view)
  {
    hide *;
    ghost var s := it.transaction.Abs();
    VisitedMore(ks, vs, it.Ahead(), view, k);
    ReadIsView(s, k);
    var v := it.transaction.ReadKey(k);
    FindHas(view, k);
    moreKeys, moreValues := ks + [k], vs + [v.value];
    it.Next();
  }

  lemma FindHas(view: Contents, k: Key)
    requires k in view
    ensures Find(view, k) == Some(view[k])
  {
  }

  /** The keys visited are those of the view that are not ahead, in order and with their values. */
  ghost predicate Visited(ks: seq<Key>, vs: seq<Value>, ahead: set<Key>, view: Contents) {
    && Ascending(ks) && AsSet(ks) + ahead == view.Keys && AsSet(ks) !! ahead
    && (forall i, j | i in AsSet(ks) && j in ahead :: Less(i, j))
    && |vs| == |ks| && forall i | 0 <= i < |ks| :: ks[i] in view && vs[i] == view[ks[i]]
  }

  lemma VisitedNone(ahead: set<Key>, view: Contents)
    requires ahead == view.Keys
    ensures Visited([], [], ahead, view)
  {
  }

  lemma VisitedMore(ks: seq<Key>, vs: seq<Value>, ahead: set<Key>, view: Contents, k: Key)
    requires Visited(ks, vs, ahead, view) && Found(Some(k), ahead)
    ensures k in view && Visited(ks + [k], vs + [view[k]], ahead - {k}, view)
  {
    hide Less, Ascending;
    AscendingPush(ks, k);
  }

  lemma VisitedAll(ks: seq<Key>, vs: seq<Value>, view: Contents)
    requires Visited(ks, vs, {}, view)
    ensures Ascending(ks) && AsSet(ks) == view.Keys && |vs| == |ks|
    ensures forall i | 0 <= i < |ks| :: ks[i] in view && vs[i] == view[ks[i]]
  {
    hide Less, Ascending;
  }

  /** At any nesting, each layer's iterator runs over the keys its parent's iterator gives. */
  method OverlayKeys(tx: Transaction) returns (ks: seq<Key>)
    requires tx.Linked() && Ok(tx.Abs())
    ensures Ascending(ks) && AsSet(ks) == View(tx.Abs()).Keys
    decreases tx.depth
  {
    hide Ok, View, Ascending, Visited;
    BelowOk(tx.Abs());
    var parentKeys;
    match tx.parent {
      case OnDb(db) =>
        parentKeys := InOrder(db.data.Keys);
        DbView(db.data);
      case OnTx(below) => parentKeys := OverlayKeys(below);
    }
    var written := InOrder(tx.writes.Keys);
    var it := new TransactionIterator(tx, written, parentKeys);
    var vs;
    ks, vs := VisitAll(it);
  }

  lemma DbView(data: Contents)
    ensures View(Db(data)) == data
  {
  }
}
