/**
 The rolling Bloom filter of `src/bloom.cpp` over plain cells.  Each cell holds the label of the generation that
 wrote it last, one of three that are used in turn, or zero.  A key is found exactly when each of its cells was
 written in the current generation or in the two before it.
 */
module BloomSpec {
  import opened Arithmetic

  type Key = seq<nat>

  datatype Filter = Filter(cells: seq<nat>, gen: nat, entries: nat)

  /** The sizes and hash functions a filter is made with. */
  datatype Params = Params(size: nat, perGeneration: nat, hashes: nat, hash: (nat, Key) -> nat) {
    predicate Ok() { size > 0 && perGeneration > 0 }

    function Positions(key: Key): (ps: seq<nat>)
      requires size > 0
      ensures |ps| == hashes && forall n | 0 <= n < hashes :: ps[n] < size
    {
      seq(hashes, n requires 0 <= n < hashes => hash(n, key) % size)
    }
  }

  function Fresh(par: Params): Filter { Filter(seq(par.size, _ => 0), 1, 0) }

  function NextLabel(gen: nat): nat { if gen + 1 == 4 then 1 else gen + 1 }

  function Wiped(cells: seq<nat>, mark: nat): (r: seq<nat>)
    ensures |r| == |cells|
  {
    seq(|cells|, p requires 0 <= p < |cells| => if cells[p] == mark then 0 else cells[p])
  }

  /** A full generation makes way for the next one. */
  function Rotate(par: Params, f: Filter): (r: Filter)
    ensures |r.cells| == |f.cells|
  {
    if f.entries == par.perGeneration then
      Filter(Wiped(f.cells, NextLabel(f.gen)), NextLabel(f.gen), 0)
    else f
  }

  function PutAll(cells: seq<nat>, ps: seq<nat>, mark: nat): (r: seq<nat>)
    requires forall n | 0 <= n < |ps| :: ps[n] < |cells|
    ensures |r| == |cells|
    ensures forall p | 0 <= p < |cells| :: r[p] == if p in ps then mark else cells[p]
    decreases |ps|
  {
    if ps == [] then cells
    else PutLast(cells, ps, mark); PutAll(cells, ps[..|ps| - 1], mark)[ps[|ps| - 1] := mark]
  }

  lemma PutLast(cells: seq<nat>, ps: seq<nat>, mark: nat)
    requires ps != []
    ensures forall p :: p in ps <==> p in ps[..|ps| - 1] || p == ps[|ps| - 1]
  {
    assert ps == ps[..|ps| - 1] + [ps[|ps| - 1]];
  }

  function Insert(par: Params, f: Filter, key: Key): (r: Filter)
    requires par.size > 0 && |f.cells| == par.size
    ensures |r.cells| == par.size
  {
    var f1 := Rotate(par, f);
    Filter(PutAll(f1.cells, par.Positions(key), f1.gen), f1.gen, f1.entries + 1)
  }

  predicate Contains(par: Params, f: Filter, key: Key)
    requires par.size > 0 && |f.cells| == par.size
  {
    forall n | 0 <= n < par.hashes :: f.cells[par.Positions(key)[n]] != 0
  }

  function Run(par: Params, keys: seq<Key>): (f: Filter)
    requires par.size > 0
    ensures |f.cells| == par.size
  {
    if keys == [] then Fresh(par) else Insert(par, Run(par, keys[..|keys| - 1]), keys[|keys| - 1])
  }

  // ----- generations counted from the start -----

  /** The generation that insertion number `i`, counted from zero, belongs to. */
  function GenerationOf(par: Params, i: nat): nat
    requires par.Ok()
  {
    i / par.perGeneration
  }

  function Label(a: nat): nat { 1 + a % 3 }

  /** The generation that is current after `n` insertions. */
  function CurrentGeneration(par: Params, n: nat): nat
    requires par.Ok()
  {
    if n == 0 then 0 else GenerationOf(par, n - 1)
  }

  /** The generation that wrote a cell last, or -1. */
  function LastWrite(par: Params, keys: seq<Key>, p: nat): int
    requires par.Ok()
  {
    if keys == [] then -1
    else if p in par.Positions(keys[|keys| - 1]) then GenerationOf(par, |keys| - 1)
    else LastWrite(par, keys[..|keys| - 1], p)
  }

  lemma LabelsDiffer(a: nat)
    ensures NextLabel(Label(a)) == Label(a + 1)
    ensures Label(a + 1) != Label(a) && (a > 0 ==> Label(a + 1) != Label(a - 1))
    ensures 1 <= Label(a) <= 3
  {
  }

  lemma LabelsRepeat(a: nat)
    ensures Label(a + 3) == Label(a)
  {
  }

  /** The counters follow the number of insertions. */
  ghost predicate Counted(par: Params, f: Filter, n: nat)
    requires par.Ok()
  {
    var a := CurrentGeneration(par, n);
    f.gen == Label(a) && f.entries == n - a * par.perGeneration && 0 <= f.entries <= par.perGeneration
  }

  /** A cell last written in the current generation or the two before carries that generation's label; others are 0. */
  ghost predicate Marked(par: Params, f: Filter, keys: seq<Key>, current: nat)
    requires par.Ok()
  {
    && |f.cells| == par.size
    && forall p | 0 <= p < par.size ::
         var w := LastWrite(par, keys, p);
         f.cells[p] == if 0 <= w && current - 2 <= w then Label(w) else 0
  }

  /** A full generation is one whose successor the next insertion belongs to. */
  lemma NextGeneration(par: Params, f: Filter, n: nat)
    requires par.Ok() && Counted(par, f, n)
    ensures
      var a := CurrentGeneration(par, n);
      if f.entries == par.perGeneration then GenerationOf(par, n) == a + 1 && n == (a + 1) * par.perGeneration
      else GenerationOf(par, n) == a
  {
    var a, d := CurrentGeneration(par, n), par.perGeneration;
    assert (a + 1) * d == a * d + d;
    if f.entries == d {
      DivUnique(a + 1, 0, d, n);
    } else {
      DivUnique(a, f.entries, d, n);
    }
  }

  lemma RotateSpec(par: Params, f: Filter, keys: seq<Key>)
    requires par.Ok() && Counted(par, f, |keys|) && Marked(par, f, keys, CurrentGeneration(par, |keys|))
    ensures
      var r, next := Rotate(par, f), GenerationOf(par, |keys|);
      && r.gen == Label(next) && r.entries == |keys| - next * par.perGeneration && 0 <= r.entries < par.perGeneration
      && Marked(par, r, keys, next)
  {
    hide Counted, LastWrite, Label, Wiped;
    CountedMeans(par, f, |keys|);
    var a := CurrentGeneration(par, |keys|);
    NextGeneration(par, f, |keys|);
    if f.entries == par.perGeneration {
      LabelsDiffer(a);
      WipeKeeps(par, f, keys, a);
    }
  }

  lemma CountedMeans(par: Params, f: Filter, n: nat)
    requires par.Ok() && Counted(par, f, n)
    ensures
      var a := CurrentGeneration(par, n);
      f.gen == Label(a) && f.entries == n - a * par.perGeneration && 0 <= f.entries <= par.perGeneration
  {
  }

  /** Wiping the label that comes into use again leaves the two most recent generations alone. */
  lemma WipeKeeps(par: Params, f: Filter, keys: seq<Key>, a: nat)
    requires par.Ok() && Marked(par, f, keys, a) && a == CurrentGeneration(par, |keys|)
    ensures Marked(par, Filter(Wiped(f.cells, Label(a + 1)), Label(a + 1), 0), keys, a + 1)
  {
    hide LastWrite, CurrentGeneration, Label;
    var r := Filter(Wiped(f.cells, Label(a + 1)), Label(a + 1), 0);
    forall p | 0 <= p < par.size
      ensures var w := LastWrite(par, keys, p); r.cells[p] == if 0 <= w && a + 1 - 2 <= w then Label(w) else 0
    {
      LastWriteBound(par, keys, p);
      LabelsDiffer(a);
      if a >= 2 {
        LabelsRepeat(a - 2);
      }
    }
  }

  lemma {:induction false} LastWriteBound(par: Params, keys: seq<Key>, p: nat)
    requires par.Ok()
    ensures LastWrite(par, keys, p) <= CurrentGeneration(par, |keys|)
    decreases |keys|
  {
    if keys != [] && p !in par.Positions(keys[|keys| - 1]) {
      LastWriteBound(par, keys[..|keys| - 1], p);
      if |keys| > 1 {
        DivMonotone(|keys| - 2, |keys| - 1, par.perGeneration);
      }
    }
  }

  /** Writing a key's cells marks them with the current generation. */
  lemma PutKeeps(par: Params, f: Filter, keys: seq<Key>, key: Key, a: nat)
    requires par.Ok() && Marked(par, f, keys, a) && a == GenerationOf(par, |keys|) && f.gen == Label(a)
    ensures Marked(par, Filter(PutAll(f.cells, par.Positions(key), f.gen), f.gen, f.entries + 1), keys + [key], a)
  {
    hide Label, GenerationOf;
    var r := Filter(PutAll(f.cells, par.Positions(key), f.gen), f.gen, f.entries + 1);
    var all := keys + [key];
    assert all[..|keys|] == keys;
    forall p | 0 <= p < par.size
      ensures var w := LastWrite(par, all, p); r.cells[p] == if 0 <= w && a - 2 <= w then Label(w) else 0
    {
      assert p in par.Positions(key) ==> LastWrite(par, all, p) == a;
    }
  }

  /** The counters and marks after any run of insertions into a fresh filter. */
  lemma {:induction false} RunSpec(par: Params, keys: seq<Key>)
    requires par.Ok()
    ensures Counted(par, Run(par, keys), |keys|) && Marked(par, Run(par, keys), keys, CurrentGeneration(par, |keys|))
    decreases |keys|
  {
    if keys == [] {
      StartSpec(par);
    } else {
      hide Counted, Marked, PutAll, Rotate, Label;
      var init, key := keys[..|keys| - 1], keys[|keys| - 1];
      RunSpec(par, init);
      var f := Run(par, init);
      RotateSpec(par, f, init);
      PutKeeps(par, Rotate(par, f), init, key, GenerationOf(par, |init|));
      assert keys == init + [key];
      CountedFrom(par, Run(par, keys), |keys|);
    }
  }

  lemma StartSpec(par: Params)
    requires par.Ok()
    ensures Counted(par, Run(par, []), 0) && Marked(par, Run(par, []), [], 0)
  {
    assert 0 * par.perGeneration == 0;
  }

  lemma CountedFrom(par: Params, f: Filter, n: nat)
    requires par.Ok() && n > 0
    requires f.gen == Label(GenerationOf(par, n - 1)) && f.entries == n - GenerationOf(par, n - 1) * par.perGeneration
    requires 0 <= f.entries <= par.perGeneration
    ensures Counted(par, f, n)
  {
  }

  // ----- what is found -----

  lemma {:induction false} WrittenSince(par: Params, keys: seq<Key>, i: nat, p: nat)
    requires par.Ok() && i < |keys| && p in par.Positions(keys[i])
    ensures LastWrite(par, keys, p) >= GenerationOf(par, i)
    decreases |keys|
  {
    var n := |keys| - 1;
    DivMonotone(i, n, par.perGeneration);
    if i < n {
      WrittenSince(par, keys[..n], i, p);
    }
  }

  /** Some hash of some key that was inserted in the current generation or in the two before it gives this cell. */
  predicate RecentlyWritten(par: Params, keys: seq<Key>, p: nat)
    requires par.Ok()
  {
    exists i, m | 0 <= i < |keys| && 0 <= m < par.hashes ::
      par.hash(m, keys[i]) % par.size == p && i / par.perGeneration >= (|keys| - 1) / par.perGeneration - 2
  }

  lemma RecentPosition(par: Params, keys: seq<Key>, p: nat)
    requires par.Ok()
    ensures RecentlyWritten(par, keys, p)
            <==> exists i | 0 <= i < |keys| ::
                   p in par.Positions(keys[i]) && GenerationOf(par, i) >= CurrentGeneration(par, |keys|) - 2
  {
    if RecentlyWritten(par, keys, p) {
      var i, m :| 0 <= i < |keys| && 0 <= m < par.hashes
                  && par.hash(m, keys[i]) % par.size == p
                  && i / par.perGeneration >= (|keys| - 1) / par.perGeneration - 2;
      assert par.Positions(keys[i])[m] == p;
    }
    if i :| 0 <= i < |keys| && p in par.Positions(keys[i])
            && GenerationOf(par, i) >= CurrentGeneration(par, |keys|) - 2 {
      var m :| 0 <= m < par.hashes && par.Positions(keys[i])[m] == p;
      assert par.hash(m, keys[i]) % par.size == p;
    }
  }

  lemma {:induction false} LastWriter(par: Params, keys: seq<Key>, p: nat) returns (i: nat)
    requires par.Ok() && LastWrite(par, keys, p) >= 0
    ensures i < |keys| && p in par.Positions(keys[i]) && GenerationOf(par, i) == LastWrite(par, keys, p)
    decreases |keys|
  {
    var n := |keys| - 1;
    if p in par.Positions(keys[n]) {
      i := n;
    } else {
      i := LastWriter(par, keys[..n], p);
    }
  }

  /** After any run, a cell is marked if and only if it was written in the last three generations. */
  lemma MarkedIffRecent(par: Params, keys: seq<Key>, p: nat)
    requires par.Ok() && p < par.size
    ensures Run(par, keys).cells[p] != 0 <==> RecentlyWritten(par, keys, p)
  {
    RecentPosition(par, keys, p);
    hide LastWrite, Run, Counted, Label, GenerationOf, CurrentGeneration, RecentlyWritten;
    RunSpec(par, keys);
    var w, current := LastWrite(par, keys, p), CurrentGeneration(par, |keys|);
    if 0 <= w && current - 2 <= w {
      LabelsDiffer(w);
      var i := LastWriter(par, keys, p);
    }
    if RecentlyWritten(par, keys, p) {
      var i :| 0 <= i < |keys| && p in par.Positions(keys[i]) && GenerationOf(par, i) >= current - 2;
      WrittenSince(par, keys, i, p);
      LabelsDiffer(w);
    }
  }

  /** After any run, a key is found if and only if each of its cells was written in the last three generations. */
  lemma FoundIffRecent(par: Params, keys: seq<Key>, key: Key)
    requires par.Ok()
    ensures Contains(par, Run(par, keys), key)
            <==> forall n | 0 <= n < par.hashes :: RecentlyWritten(par, keys, par.hash(n, key) % par.size)
  {
    hide Run, RecentlyWritten;
    forall n | 0 <= n < par.hashes
      ensures Run(par, keys).cells[par.Positions(key)[n]] != 0
              <==> RecentlyWritten(par, keys, par.hash(n, key) % par.size)
    {
      MarkedIffRecent(par, keys, par.Positions(key)[n]);
    }
  }

  /** A key with a cell that no key of the last three generations shares is forgotten, though it was inserted. */
  lemma ForgottenAfterThree(par: Params, keys: seq<Key>, key: Key, n: nat)
    requires par.Ok() && n < par.hashes
    requires forall i, m | 0 <= i < |keys| && 0 <= m < par.hashes
                           && i / par.perGeneration >= (|keys| - 1) / par.perGeneration - 2 ::
               par.hash(m, keys[i]) % par.size != par.hash(n, key) % par.size
    ensures !Contains(par, Run(par, keys), key)
  {
    hide Run, Contains;
    FoundIffRecent(par, keys, key);
    assert !RecentlyWritten(par, keys, par.hash(n, key) % par.size);
  }

  /** A new filter, with at least one hash function, finds nothing. */
  lemma FreshFindsNothing(par: Params, key: Key)
    requires par.Ok() && par.hashes > 0
    ensures !Contains(par, Fresh(par), key)
  {
    assert par.Positions(key)[0] < par.size;
  }

  /** Every key of the current generation and of the two before it is found. */
  lemma RecentGenerationsFound(par: Params, keys: seq<Key>, i: nat)
    requires par.Ok() && i < |keys| && GenerationOf(par, i) >= CurrentGeneration(par, |keys|) - 2
    ensures Contains(par, Run(par, keys), keys[i])
  {
    hide LastWrite, Run, Counted, Label;
    RunSpec(par, keys);
    var f := Run(par, keys);
    forall n | 0 <= n < par.hashes ensures f.cells[par.Positions(keys[i])[n]] != 0 {
      var p := par.Positions(keys[i])[n];
      assert p in par.Positions(keys[i]);
      WrittenSince(par, keys, i, p);
      LabelsDiffer(LastWrite(par, keys, p));
    }
  }

  /**
   A filter for `nElements` keeps `(nElements + 1) / 2` insertions in a generation, and after any run of insertions
   finds each of the last `nElements` keys, whatever was inserted before them.
   */
  lemma LastElementsFound(par: Params, keys: seq<Key>, nElements: nat, i: nat)
    requires par.Ok() && par.perGeneration == (nElements + 1) / 2
    requires i < |keys| && |keys| - i <= nElements
    ensures Contains(par, Run(par, keys), keys[i])
  {
    hide Contains, Run;
    var d := par.perGeneration;
    WithinTwo(i, |keys| - 1, d);
    RecentGenerationsFound(par, keys, i);
  }

  /** Fewer than two generations apart in number is at most two apart in count. */
  lemma WithinTwo(i: nat, j: nat, d: nat)
    requires i <= j < i + 2 * d && d > 0
    ensures i / d >= j / d - 2
  {
    DivMonotone(j, i + 2 * d, d);
    var q := i / d;
    assert i == d * q + i % d;
    assert (q + 2) * d == d * q + 2 * d;
    DivUnique(q + 2, i % d, d, i + 2 * d);
  }
}
