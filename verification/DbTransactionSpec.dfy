/**
 Transactions over a key/value database, `src/dbwrapper.h`: each layer keeps writes and deletes over its parent.
 Any nesting of transactions behaves as a stack of plain maps, and the memory counter of each is exact.
 */
module DbTransactionSpec {
  import opened Options
  import opened Maps

  type Key = seq<nat>

  /** A value and its serialized size. */
  datatype Value = Value(data: nat, size: nat)

  type Contents = map<Key, Value>

  datatype Store =
    | Db(data: Contents)
    | Tx(parent: Store, writes: Contents, deletes: set<Key>, memory: int)

  /** What a reader of the layer sees. */
  function View(s: Store): Contents {
    match s
    case Db(data) => data
    case Tx(parent, writes, deletes, _) => (View(parent) - deletes) + writes
  }

  // ----- memory held -----

  ghost const weight: (Key, Value) -> int := (k: Key, v: Value) => |k| + v.size

  ghost function Erased(deletes: set<Key>): Contents { map k | k in deletes :: Value(0, 0) }

  /** The keys and values held: both for a write, the key for a delete. */
  ghost function Usage(writes: Contents, deletes: set<Key>): int {
    Total(writes, weight) + Total(Erased(deletes), weight)
  }

  lemma UsageWrite(writes: Contents, deletes: set<Key>, k: Key, v: Value)
    ensures Usage(writes[k := v], deletes - {k})
            == Usage(writes, deletes) - (if k in deletes then |k| else 0)
               - (if k in writes then |k| + writes[k].size else 0) + |k| + v.size
  {
    TotalInsert(writes, weight, k, v);
    if k in deletes {
      TotalRemove(Erased(deletes), weight, k);
      assert Erased(deletes) - {k} == Erased(deletes - {k});
    } else {
      assert deletes - {k} == deletes;
    }
  }

  lemma UsageErase(writes: Contents, deletes: set<Key>, k: Key)
    ensures Usage(writes - {k}, deletes + {k})
            == Usage(writes, deletes) - (if k in writes then |k| + writes[k].size else 0)
               + (if k in deletes then 0 else |k|)
  {
    if k in writes {
      TotalRemove(writes, weight, k);
    } else {
      assert writes - {k} == writes;
    }
    if k in deletes {
      assert deletes + {k} == deletes;
    } else {
      TotalInsert(Erased(deletes), weight, k, Value(0, 0));
      assert Erased(deletes)[k := Value(0, 0)] == Erased(deletes + {k});
    }
  }

  lemma UsageEmpty()
    ensures Usage(map[], {}) == 0
  {
    assert Erased({}) == map[];
  }

  // ----- operations on a layer -----

  function Write(s: Store, k: Key, v: Value): Store {
    match s
    case Db(data) => Db(data[k := v])
    case Tx(parent, writes, deletes, memory) =>
      Tx(parent, writes[k := v], deletes - {k},
         memory - (if k in deletes then |k| else 0) - (if k in writes then |k| + writes[k].size else 0) + |k| + v.size)
  }

  function Erase(s: Store, k: Key): Store {
    match s
    case Db(data) => Db(data - {k})
    case Tx(parent, writes, deletes, memory) =>
      Tx(parent, writes - {k}, deletes + {k},
         memory - (if k in writes then |k| + writes[k].size else 0) + (if k in deletes then 0 else |k|))
  }

  function Read(s: Store, k: Key): Option<Value> {
    match s
    case Db(data) => Find(data, k)
    case Tx(parent, writes, deletes, _) =>
      if k in deletes then None else if k in writes then Some(writes[k]) else Read(parent, k)
  }

  function Exists(s: Store, k: Key): bool {
    match s
    case Db(data) => k in data
    case Tx(parent, writes, deletes, _) =>
      if k in deletes then false else if k in writes then true else Exists(parent, k)
  }

  function Clear(s: Store): Store {
    match s
    case Db(_) => s
    case Tx(parent, _, _, _) => Tx(parent, map[], {}, 0)
  }

  /** Writes and deletes are disjoint and the counter is exact, in every layer. */
  ghost predicate Ok(s: Store) {
    match s
    case Db(_) => true
    case Tx(parent, writes, deletes, memory) =>
      Ok(parent) && writes.Keys !! deletes && memory == Usage(writes, deletes)
  }

  lemma {:induction false} ReadIsView(s: Store, k: Key)
    requires Ok(s)
    ensures Read(s, k) == Find(View(s), k) && (Exists(s, k) <==> k in View(s))
  {
    hide Usage;
    if s.Tx? {
      ReadIsView(s.parent, k);
    }
  }

  lemma WriteSpec(s: Store, k: Key, v: Value)
    requires Ok(s)
    ensures Ok(Write(s, k, v)) && View(Write(s, k, v)) == View(s)[k := v]
  {
    hide Usage;
    if s.Tx? {
      UsageWrite(s.writes, s.deletes, k, v);
    }
  }

  lemma EraseSpec(s: Store, k: Key)
    requires Ok(s)
    ensures Ok(Erase(s, k)) && View(Erase(s, k)) == View(s) - {k}
  {
    hide Usage;
    if s.Tx? {
      UsageErase(s.writes, s.deletes, k);
    }
  }

  lemma ClearSpec(s: Store)
    requires Ok(s)
    ensures Ok(Clear(s)) && (s.Tx? ==> View(Clear(s)) == View(s.parent))
  {
    hide Usage;
    UsageEmpty();
  }

  // ----- committing -----

  ghost function EraseMany(s: Store, keys: set<Key>): Store {
    match s
    case Db(data) => Db(data - keys)
    case Tx(parent, writes, deletes, _) => Tx(parent, writes - keys, deletes + keys,
        Usage(writes - keys, deletes + keys))
  }

  ghost function WriteMany(s: Store, entries: Contents): Store {
    match s
    case Db(data) => Db(data + entries)
    case Tx(parent, writes, deletes, _) =>
      Tx(parent, writes + entries, deletes - entries.Keys, Usage(writes + entries, deletes - entries.Keys))
  }

  lemma EraseManyNone(s: Store)
    requires Ok(s)
    ensures EraseMany(s, {}) == s
  {
    if s.Tx? {
      assert s.writes - {} == s.writes && s.deletes + {} == s.deletes;
    } else {
      assert s.data - {} == s.data;
    }
  }

  lemma WriteManyNone(s: Store)
    requires Ok(s)
    ensures WriteMany(s, map[]) == s
  {
    var none: Contents := map[];
    if s.Tx? {
      assert s.writes + none == s.writes && s.deletes - none.Keys == s.deletes;
    } else {
      assert s.data + none == s.data;
    }
  }

  lemma EraseManySpec(s: Store, keys: set<Key>)
    requires Ok(s)
    ensures Ok(EraseMany(s, keys)) && View(EraseMany(s, keys)) == View(s) - keys
  {
    hide Usage;
  }

  lemma WriteManySpec(s: Store, entries: Contents)
    requires Ok(s)
    ensures Ok(WriteMany(s, entries)) && View(WriteMany(s, entries)) == View(s) + entries
  {
    hide Usage;
  }

  lemma EraseOneMore(s: Store, keys: set<Key>, k: Key)
    requires Ok(s)
    ensures EraseMany(s, keys + {k}) == Erase(EraseMany(s, keys), k)
  {
    hide Usage;
    if s.Tx? {
      UsageErase(s.writes - keys, s.deletes + keys, k);
      assert s.writes - (keys + {k}) == (s.writes - keys) - {k};
      assert s.deletes + (keys + {k}) == (s.deletes + keys) + {k};
    } else {
      assert s.data - (keys + {k}) == (s.data - keys) - {k};
    }
  }

  lemma WriteOneMore(s: Store, entries: Contents, k: Key, v: Value)
    requires Ok(s)
    ensures WriteMany(s, entries[k := v]) == Write(WriteMany(s, entries), k, v)
  {
    hide Usage;
    if s.Tx? {
      UsageWrite(s.writes + entries, s.deletes - entries.Keys, k, v);
      assert s.writes + entries[k := v] == (s.writes + entries)[k := v];
      assert s.deletes - entries[k := v].Keys == (s.deletes - entries.Keys) - {k};
    } else {
      assert s.data + entries[k := v] == (s.data + entries)[k := v];
    }
  }

  /** All deletes, then all writes, go to the parent, and the layer is empty. */
  ghost function Commit(s: Store): Store {
    match s
    case Db(_) => s
    case Tx(parent, writes, deletes, _) => Tx(WriteMany(EraseMany(parent, deletes), writes), map[], {}, 0)
  }

  /** After a commit the parent shows what the layer showed, and the layer still shows it. */
  lemma CommitSpec(s: Store)
    requires Ok(s)
    ensures Ok(Commit(s)) && View(Commit(s)) == View(s)
    ensures s.Tx? ==> Commit(s).Tx? && View(Commit(s).parent) == View(s)
  {
    hide Usage, EraseMany, WriteMany;
    if s.Tx? {
      EraseManySpec(s.parent, s.deletes);
      WriteManySpec(EraseMany(s.parent, s.deletes), s.writes);
      UsageEmpty();
      var v := View(s);
      assert (v - {}) + map[] == v;
    }
  }

  // ----- runs over a stack of transactions -----

  /** What each layer shows, the topmost first. */
  function Views(s: Store): (vs: seq<Contents>)
    ensures |vs| > 0 && vs[0] == View(s)
  {
    match s
    case Db(data) => [data]
    case Tx(parent, _, _, _) => [View(s)] + Views(parent)
  }

  ghost function CommitAt(s: Store, level: nat): Store
    decreases level
  {
    if s.Db? then s
    else if level == 0 then Commit(s)
    else Tx(CommitAt(s.parent, level - 1), s.writes, s.deletes, s.memory)
  }

  /** Committing a layer further down changes only what the layer below it shows. */
  lemma {:induction false} CommitAtSpec(s: Store, level: nat)
    requires Ok(s)
    ensures Ok(CommitAt(s, level))
    ensures Views(CommitAt(s, level)) == Committed(Views(s), level)
    decreases level
  {
    hide Usage, Commit;
    if s.Tx? {
      if level == 0 {
        CommitSpec(s);
        CommitParent(s);
      } else {
        CommitAtSpec(s.parent, level - 1);
        var p := CommitAt(s.parent, level - 1);
        assert View(p) == Views(p)[0] == Committed(Views(s.parent), level - 1)[0] == View(s.parent);
        assert Views(s)[1..] == Views(s.parent);
      }
    }
  }

  /** A commit leaves all layers below the parent alone. */
  lemma CommitParent(s: Store)
    requires s.Tx?
    ensures Commit(s).Tx? && Views(Commit(s).parent)[1..] == Views(s.parent)[1..]
  {
  }

  function Committed(vs: seq<Contents>, level: nat): (r: seq<Contents>)
    ensures |r| == |vs|
  {
    if level + 1 < |vs| then vs[level + 1 := vs[level]] else vs
  }

  datatype Op = WriteOp(k: Key, v: Value) | EraseOp(k: Key) | ClearOp | CommitOp(level: nat)

  ghost function Apply(s: Store, op: Op): Store {
    match op
    case WriteOp(k, v) => Write(s, k, v)
    case EraseOp(k) => Erase(s, k)
    case ClearOp => Clear(s)
    case CommitOp(level) => CommitAt(s, level)
  }

  /** The same on plain maps. */
  function ApplyPlain(vs: seq<Contents>, op: Op): (r: seq<Contents>)
    requires |vs| > 0
    ensures |r| > 0
  {
    match op
    case WriteOp(k, v) => vs[0 := vs[0][k := v]]
    case EraseOp(k) => vs[0 := vs[0] - {k}]
    case ClearOp => if |vs| > 1 then vs[0 := vs[1]] else vs
    case CommitOp(level) => Committed(vs, level)
  }

  ghost function Run(s: Store, ops: seq<Op>): Store
    decreases |ops|
  {
    if ops == [] then s else Run(Apply(s, ops[0]), ops[1..])
  }

  function RunPlain(vs: seq<Contents>, ops: seq<Op>): seq<Contents>
    requires |vs| > 0
    decreases |ops|
  {
    if ops == [] then vs else RunPlain(ApplyPlain(vs, ops[0]), ops[1..])
  }

  lemma StepRefines(s: Store, op: Op)
    requires Ok(s)
    ensures Ok(Apply(s, op)) && Views(Apply(s, op)) == ApplyPlain(Views(s), op)
  {
    hide Usage, Commit, CommitAt;
    match op {
      case WriteOp(k, v) => WriteSpec(s, k, v);
      case EraseOp(k) => EraseSpec(s, k);
      case ClearOp => ClearSpec(s);
      case CommitOp(level) => CommitAtSpec(s, level);
    }
  }

  /** Whatever is written, erased, rolled back or committed at any depth, the layers show what plain maps would. */
  lemma {:induction false} RunRefines(s: Store, ops: seq<Op>)
    requires Ok(s)
    ensures Ok(Run(s, ops)) && Views(Run(s, ops)) == RunPlain(Views(s), ops)
    decreases |ops|
  {
    hide Ok, Apply, ApplyPlain;
    if ops != [] {
      StepRefines(s, ops[0]);
      RunRefines(Apply(s, ops[0]), ops[1..]);
    }
  }
}
