/** The rolling Bloom filter as an object: sixteen cells of two bits in each 32-bit word. */
module Bloom {
  import opened BloomSpec

  // ----- one word -----

  predicate Slot(s: bv32) { s & 1 == 0 && s < 32 }

  function Field(word: bv32, s: bv32): bv32
    requires Slot(s)
  {
    (word >> s) & 3
  }

  function WithField(word: bv32, s: bv32, v: bv32): bv32
    requires Slot(s)
  {
    (word & !(3 << s)) | (v << s)
  }

  /** The cells of a word are independent of each other. */
  lemma FieldOfWith(word: bv32, s: bv32, t: bv32, v: bv32)
    requires Slot(s) && Slot(t) && v < 4
    ensures Field(WithField(word, s, v), t) == if s == t then v else Field(word, t)
  {
  }

  /** Twice the number of a cell within its word. */
  function Amount(i: nat): bv32
    requires i < 16
  {
    if i == 0 then 0 else if i == 1 then 2 else if i == 2 then 4 else if i == 3 then 6 else
    if i == 4 then 8 else if i == 5 then 10 else if i == 6 then 12 else if i == 7 then 14 else
    if i == 8 then 16 else if i == 9 then 18 else if i == 10 then 20 else if i == 11 then 22 else
    if i == 12 then 24 else if i == 13 then 26 else if i == 14 then 28 else 30
  }

  lemma AmountSlot(i: nat)
    requires i < 16
    ensures Slot(Amount(i))
  {
  }

  lemma AmountInjective(i: nat, j: nat)
    requires i < 16 && j < 16
    ensures Amount(i) == Amount(j) <==> i == j
  {
  }

  function Small(v: bv32): nat {
    if v == 0 then 0 else if v == 1 then 1 else if v == 2 then 2 else 3
  }

  function Bits(n: nat): bv32 {
    if n == 0 then 0 else if n == 1 then 1 else if n == 2 then 2 else 3
  }

  lemma SmallBits(n: nat)
    requires n < 4
    ensures Small(Bits(n)) == n && Bits(n) < 4
  {
  }

  /** Cell `p` of the words. */
  function Cell(data: seq<bv32>, p: nat): nat
    requires p < 16 * |data|
  {
    AmountSlot(p % 16);
    Small(Field(data[p / 16], Amount(p % 16)))
  }

  function WithCell(data: seq<bv32>, p: nat, v: nat): (r: seq<bv32>)
    requires p < 16 * |data|
    ensures |r| == |data|
  {
    AmountSlot(p % 16);
    data[p / 16 := WithField(data[p / 16], Amount(p % 16), Bits(v))]
  }

  /** Writing a cell changes that cell alone. */
  lemma CellOfWith(data: seq<bv32>, p: nat, v: nat, q: nat)
    requires p < 16 * |data| && q < 16 * |data| && v < 4
    ensures Cell(WithCell(data, p, v), q) == if p == q then v else Cell(data, q)
  {
    hide Slot, Field, WithField, Amount, Small, Bits;
    SmallBits(v);
    AmountSlot(p % 16);
    AmountSlot(q % 16);
    if p / 16 == q / 16 {
      AmountInjective(p % 16, q % 16);
      FieldOfWith(data[p / 16], Amount(p % 16), Amount(q % 16), Bits(v));
    }
  }

  function Cells(data: seq<bv32>): (cells: seq<nat>)
    ensures |cells| == 16 * |data|
  {
    seq(16 * |data|, p requires 0 <= p < 16 * |data| => Cell(data, p))
  }

  lemma CellsOfWith(data: seq<bv32>, p: nat, v: nat)
    requires p < 16 * |data| && v < 4
    ensures Cells(WithCell(data, p, v)) == Cells(data)[p := v]
  {
    hide Cell, WithCell;
    forall q | 0 <= q < 16 * |data| ensures Cells(WithCell(data, p, v))[q] == Cells(data)[p := v][q] {
      CellOfWith(data, p, v, q);
    }
  }

  lemma CellsOfZero(data: seq<bv32>)
    requires forall i | 0 <= i < |data| :: data[i] == 0
    ensures Cells(data) == seq(16 * |data|, _ => 0)
  {
    hide Amount;
    forall p | 0 <= p < 16 * |data| ensures Cells(data)[p] == 0 {
      AmountSlot(p % 16);
      ZeroField(Amount(p % 16));
    }
  }

  lemma ZeroField(s: bv32)
    requires Slot(s)
    ensures Small(Field(0, s)) == 0
  {
  }

  // ----- the filter -----

  class RollingBloomFilter {
    const nEntriesPerGeneration: nat
    const nHashFuncs: nat
    const words: nat
    var nEntriesThisGeneration: nat
    var nGeneration: nat
    var data: seq<bv32>
    var murmur: (nat, Key) -> nat

    /** `murmur` stands for the hash function under the tweak drawn at creation. */
    constructor (nElements: nat, hashes: nat, words: nat, murmur: (nat, Key) -> nat)
      requires words > 0
      ensures Sized() && State() == Fresh(Par()) && nEntriesPerGeneration == (nElements + 1) / 2
      ensures nHashFuncs == hashes && this.words == words && this.murmur == murmur
    {
      nEntriesPerGeneration := (nElements + 1) / 2;
      nHashFuncs := hashes;
      this.words := words;
      data := seq(words, _ => 0);
      nEntriesThisGeneration := 0;
      nGeneration := 1;
      this.murmur := murmur;
      new;
      CellsOfZero(data);
    }

    ghost predicate Sized()
      reads this
    {
      words > 0 && |data| == words && 1 <= nGeneration <= 3
    }

    function Par(): Params
      reads this
    {
      Params(16 * words, nEntriesPerGeneration, nHashFuncs, murmur)
    }

    ghost function State(): Filter
      reads this
    {
      Filter(Cells(data), nGeneration, nEntriesThisGeneration)
    }

    function Get(p: nat): nat
      requires p < 16 * |data|
      reads this
    {
      Cell(data, p)
    }

    method Put(p: nat, v: nat)
      requires p < 16 * |data| && v < 4
      modifies this`data
      ensures |data| == old(|data|) && Cells(data) == old(Cells(data))[p := v]
    {
      hide Cell, WithCell;
      CellsOfWith(data, p, v);
      data := WithCell(data, p, v);
    }

    /** Empties every cell that still carries the label now coming into use again. */
    method Wipe()
      requires Sized()
      modifies this`data
      ensures Sized() && Cells(data) == Wiped(old(Cells(data)), nGeneration)
    {
      hide Cell;
      ghost var c := Cells(data);
      for p := 0 to 16 * |data|
        invariant |data| == words
        invariant forall q | 0 <= q < 16 * words :: Cells(data)[q] == if q < p && c[q] == nGeneration then 0 else c[q]
      {
        assert Get(p) == Cells(data)[p];
        if Get(p) == nGeneration {
          Put(p, 0);
        }
      }
      assert Cells(data) == Wiped(c, nGeneration);
    }

    method InsertKey(key: Key)
      requires Sized()
      modifies this`data, this`nGeneration, this`nEntriesThisGeneration
      ensures Sized() && State() == Insert(Par(), old(State()), key)
    {
      hide Cell, Cells, Wiped, PutAll;
      if nEntriesThisGeneration == nEntriesPerGeneration {
        nEntriesThisGeneration := 0;
        nGeneration := nGeneration + 1;
        if nGeneration == 4 {
          nGeneration := 1;
        }
        Wipe();
      }
      nEntriesThisGeneration := nEntriesThisGeneration + 1;
      ghost var c, ps := Cells(data), Par().Positions(key);
      PutNone(c, nGeneration);
      assert ps[..0] == [];
      for n := 0 to nHashFuncs
        invariant Sized() && Cells(data) == PutAll(c, ps[..n], nGeneration)
        modifies this`data
      {
        var h := murmur(n, key) % (16 * words);
        PutNext(c, ps, n, nGeneration);
        Put(h, nGeneration);
      }
      assert ps[..nHashFuncs] == ps;
    }

    method ContainsKey(key: Key) returns (found: bool)
      requires Sized()
      ensures found == Contains(Par(), State(), key)
    {
      hide Cell;
      ghost var ps := Par().Positions(key);
      for n := 0 to nHashFuncs
        invariant forall k | 0 <= k < n :: Cells(data)[ps[k]] != 0
      {
        var h := murmur(n, key) % (16 * words);
        assert h == ps[n] && Get(h) == Cells(data)[h];
        if Get(h) == 0 {
          return false;
        }
      }
      found := true;
    }

    /** Everything is forgotten, and the hash function changes. */
    method Reset(tweaked: (nat, Key) -> nat)
      requires Sized()
      modifies this
      ensures Sized() && murmur == tweaked && State() == Fresh(Par())
    {
      murmur := tweaked;
      nEntriesThisGeneration := 0;
      nGeneration := 1;
      ghost var size := |data|;
      for i := 0 to |data|
        invariant |data| == size && forall j | 0 <= j < i :: data[j] == 0
        modifies this`data
      {
        data := data[i := 0];
      }
      CellsOfZero(data);
    }
  }

  lemma PutNone(cells: seq<nat>, mark: nat)
    ensures PutAll(cells, [], mark) == cells
  {
  }

  lemma PutNext(cells: seq<nat>, ps: seq<nat>, n: nat, mark: nat)
    requires n < |ps| && forall k | 0 <= k < |ps| :: ps[k] < |cells|
    ensures PutAll(cells, ps[..n + 1], mark) == PutAll(cells, ps[..n], mark)[ps[n] := mark]
  {
    assert ps[..n + 1][..n] == ps[..n];
  }
}
