/**
 The merging iterator of `src/dbwrapper.h`: one position among the keys written by the transaction, one among the
 keys of its parent, both in byte order.  It visits each key of the overlay once, in ascending order.
 */
module DbIteratorSpec {
  import opened DbTransactionSpec

  // ----- the order of keys -----

  /** Byte by byte, a proper prefix before what it is a prefix of. */
  predicate Less(a: Key, b: Key) {
    if b == [] then false
    else if a == [] then true
    else a[0] < b[0] || (a[0] == b[0] && Less(a[1..], b[1..]))
  }

  lemma {:induction false} LessIrreflexive(a: Key)
    ensures !Less(a, a)
    decreases |a|
  {
    if a != [] {
      LessIrreflexive(a[1..]);
    }
  }

  lemma {:induction false} LessTransitive(a: Key, b: Key, c: Key)
    requires Less(a, b) && Less(b, c)
    ensures Less(a, c)
    decreases |a|
  {
    if a != [] && a[0] == b[0] == c[0] {
      LessTransitive(a[1..], b[1..], c[1..]);
    }
  }

  lemma {:induction false} LessTotal(a: Key, b: Key)
    ensures Less(a, b) || a == b || Less(b, a)
    decreases |a|
  {
    if a != [] && b != [] && a[0] == b[0] {
      LessTotal(a[1..], b[1..]);
      assert a == [a[0]] + a[1..] && b == [b[0]] + b[1..];
    }
  }

  /** The first difference decides: a key that ends there, or has the smaller byte there, comes first. */
  lemma {:induction false} LessIff(a: Key, b: Key)
    ensures Less(a, b) <==> exists i :: 0 <= i <= |a| && i < |b| && a[..i] == b[..i] && (i == |a| || a[i] < b[i])
    decreases |a|
  {
    if a == [] {
      assert a[..0] == b[..0] == [];
    } else if b != [] {
      if a[0] == b[0] {
        LessIff(a[1..], b[1..]);
        if i :| 0 <= i <= |a[1..]| && i < |b[1..]| && a[1..][..i] == b[1..][..i]
                && (i == |a[1..]| || a[1..][i] < b[1..][i]) {
          assert a[..i + 1] == [a[0]] + a[1..][..i] == b[..i + 1];
        }
        if i :| 0 <= i <= |a| && i < |b| && a[..i] == b[..i] && (i == |a| || a[i] < b[i]) {
          assert i > 0;
          assert a[1..][..i - 1] == a[..i][1..] == b[..i][1..] == b[1..][..i - 1];
        }
      } else {
        assert a[..0] == b[..0] == [];
        forall i | 0 < i <= |a| && i < |b| ensures a[..i] != b[..i] {
          assert a[..i][0] != b[..i][0];
        }
      }
    }
  }

  predicate Ascending(ks: seq<Key>) { forall i, j | 0 <= i < j < |ks| :: Less(ks[i], ks[j]) }

  function AsSet(ks: seq<Key>): set<Key> { set k | k in ks }

  // ----- the iterator -----

  /** The keys written, the keys of the parent, both ascending, and the positions reached in them. */
  datatype Iter = Iter(written: seq<Key>, parents: seq<Key>, hidden: set<Key>, t: nat, p: nat, curIsParent: bool)

  ghost predicate Shaped(it: Iter) {
    && Ascending(it.written) && Ascending(it.parents) && AsSet(it.written) <= it.hidden
    && it.t <= |it.written| && it.p <= |it.parents|
  }

  /** The parent's position is at a key that is neither deleted nor overwritten. */
  ghost predicate Settled(it: Iter) {
    && Shaped(it)
    && (it.p < |it.parents| ==> it.parents[it.p] !in it.hidden)
    && it.curIsParent == ParentFirst(it)
  }

  ghost predicate ParentFirst(it: Iter)
    requires Shaped(it)
  {
    if it.t < |it.written| && it.p < |it.parents| then !Less(it.written[it.t], it.parents[it.p])
    else if it.p < |it.parents| then true
    else if it.t < |it.written| then false
    else it.curIsParent
  }

  predicate Valid(it: Iter) { it.t < |it.written| || it.p < |it.parents| }

  /** The keys still to come. */
  ghost function Remaining(it: Iter): set<Key>
    requires Shaped(it)
  {
    AsSet(it.written[it.t..]) + (AsSet(it.parents[it.p..]) - it.hidden)
  }

  ghost function Current(it: Iter): Key
    requires Settled(it) && Valid(it)
  {
    if it.curIsParent then it.parents[it.p] else it.written[it.t]
  }

  lemma DropOne(ks: seq<Key>, i: nat)
    requires Ascending(ks) && i < |ks|
    ensures AsSet(ks[i..]) == {ks[i]} + AsSet(ks[i + 1..]) && ks[i] !in AsSet(ks[i + 1..])
  {
    forall k | k in ks[i + 1..] ensures Less(ks[i], k) && k != ks[i] {
      var j :| 0 <= j < |ks[i + 1..]| && ks[i + 1..][j] == k;
      assert ks[i + 1 + j] == k;
      LessIrreflexive(k);
    }
    forall k | k in ks[i..] ensures k == ks[i] || k in ks[i + 1..] {
      var j :| 0 <= j < |ks[i..]| && ks[i..][j] == k;
      if j > 0 {
        assert ks[i + 1..][j - 1] == k;
      }
    }
    forall k | k in ks[i + 1..] ensures k in ks[i..] {
      var j :| 0 <= j < |ks[i + 1..]| && ks[i + 1..][j] == k;
      assert ks[i..][j + 1] == k;
    }
    assert ks[i..][0] == ks[i];
  }

  /** Everything from a position on is at least the key there. */
  lemma AtLeast(ks: seq<Key>, i: nat, k: Key)
    requires Ascending(ks) && i < |ks| && k in ks[i..]
    ensures k == ks[i] || Less(ks[i], k)
  {
    var j :| 0 <= j < |ks[i..]| && ks[i..][j] == k;
    assert k == ks[i + j];
  }

  /** Skipping a hidden key of the parent skips nothing that is to come. */
  lemma SkipKeeps(it: Iter)
    requires Shaped(it) && it.p < |it.parents| && it.parents[it.p] in it.hidden
    ensures Shaped(it.(p := it.p + 1)) && Remaining(it.(p := it.p + 1)) == Remaining(it)
  {
    DropOne(it.parents, it.p);
  }

  /** The current key is the least of those to come. */
  lemma CurrentIsLeast(it: Iter, k: Key)
    requires Settled(it) && Valid(it) && k in Remaining(it)
    ensures Current(it) in Remaining(it) && (k == Current(it) || Less(Current(it), k))
  {
    var c := Current(it);
    if it.t < |it.written| {
      assert it.written[it.t..][0] == it.written[it.t];
    }
    if it.p < |it.parents| {
      assert it.parents[it.p..][0] == it.parents[it.p];
    }
    if k in it.written[it.t..] {
      AtLeast(it.written, it.t, k);
      if it.curIsParent {
        LessTotal(it.written[it.t], it.parents[it.p]);
        if Less(c, it.written[it.t]) && k != it.written[it.t] {
          LessTransitive(c, it.written[it.t], k);
        }
      }
    } else {
      AtLeast(it.parents, it.p, k);
      if !it.curIsParent && k != it.parents[it.p] {
        LessTransitive(c, it.parents[it.p], k);
      }
    }
  }

  /** Moving on from the current key takes away that key and no other. */
  lemma AdvanceRemoves(it: Iter)
    requires Settled(it) && Valid(it)
    ensures
      var next := if it.curIsParent then it.(p := it.p + 1) else it.(t := it.t + 1);
      Shaped(next) && Remaining(next) == Remaining(it) - {Current(it)}
  {
    if it.curIsParent {
      DropOne(it.parents, it.p);
      NotWritten(it);
    } else {
      DropOne(it.written, it.t);
      WrittenAreHidden(it);
    }
  }

  /** A parent's key that is shown is not among the written ones. */
  lemma NotWritten(it: Iter)
    requires Settled(it) && it.p < |it.parents|
    ensures it.parents[it.p] !in AsSet(it.written[it.t..])
  {
  }

  lemma WrittenAreHidden(it: Iter)
    requires Shaped(it) && it.t < |it.written|
    ensures it.written[it.t] in it.hidden
  {
    assert it.written[it.t] in AsSet(it.written);
  }

  /** From the start, the keys to come are those of the overlay. */
  lemma StartCoversOverlay(it: Iter, parent: Contents, writes: Contents, deletes: set<Key>)
    requires Shaped(it) && it.t == 0 && it.p == 0
    requires AsSet(it.written) == writes.Keys && AsSet(it.parents) == parent.Keys && it.hidden == deletes + writes.Keys
    requires writes.Keys !! deletes
    ensures Remaining(it) == ((parent - deletes) + writes).Keys
  {
    assert it.written[0..] == it.written && it.parents[0..] == it.parents;
  }

  /** The first position whose key is not below `key`. */
  ghost predicate LowerBound(ks: seq<Key>, key: Key, i: nat) {
    i <= |ks| && (forall j | 0 <= j < i :: Less(ks[j], key)) && (i < |ks| ==> !Less(ks[i], key))
  }

  lemma SeekCoversRest(it: Iter, key: Key, parent: Contents, writes: Contents, deletes: set<Key>)
    requires Shaped(it) && LowerBound(it.written, key, it.t) && LowerBound(it.parents, key, it.p)
    requires AsSet(it.written) == writes.Keys && AsSet(it.parents) == parent.Keys && it.hidden == deletes + writes.Keys
    requires writes.Keys !! deletes
    ensures Remaining(it) == set k | k in ((parent - deletes) + writes).Keys && !Less(k, key)
  {
    FromLowerBound(it.written, key, it.t);
    FromLowerBound(it.parents, key, it.p);
  }

  lemma FromLowerBound(ks: seq<Key>, key: Key, i: nat)
    requires Ascending(ks) && LowerBound(ks, key, i)
    ensures AsSet(ks[i..]) == set k | k in AsSet(ks) && !Less(k, key)
  {
    forall k | k in ks[i..] ensures k in ks && !Less(k, key) {
      var j :| 0 <= j < |ks[i..]| && ks[i..][j] == k;
      assert ks[i + j] == k;
      if j > 0 && Less(k, key) {
        LessTransitive(ks[i], k, key);
      }
    }
    forall k | k in ks && !Less(k, key) ensures k in ks[i..] {
      var j :| 0 <= j < |ks| && ks[j] == k;
      assert ks[i..][j - i] == k;
    }
  }
}
