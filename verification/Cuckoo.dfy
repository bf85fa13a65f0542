/** The cuckoo cache as an object, with its packed garbage collection flags. */
module Cuckoo {
  import opened Bytes
  import opened Arithmetic
  import opened CuckooSpec

  /** Flags packed eight to a byte, all set at first; setting or clearing one leaves the others alone. */
  class BitPackedFlags {
    var mem: seq<bv8>

    constructor (size: nat)
      ensures |mem| == (size + 7) / 8 && forall s | 0 <= s < 8 * |mem| :: IsSet(s)
    {
      mem := seq((size + 7) / 8, _ => 0xFF);
      new;
      forall s | 0 <= s < 8 * |mem| ensures IsSet(s) {
        AllSet(s % 8);
      }
    }

    predicate IsSet(s: nat)
      requires s < 8 * |mem|
      reads this
    {
      Bit(mem[s / 8], s % 8)
    }

    method BitSet(s: nat)
      requires s < 8 * |mem|
      modifies this
      ensures |mem| == old(|mem|)
      ensures forall t | 0 <= t < 8 * |mem| :: IsSet(t) == (t == s || old(IsSet(t)))
    {
      mem := mem[s / 8 := mem[s / 8] | Mask(s % 8)];
      forall t | 0 <= t < 8 * |mem| ensures IsSet(t) == (t == s || old(IsSet(t))) {
        if t / 8 == s / 8 {
          SetBit(old(mem[s / 8]), s % 8, t % 8);
        }
      }
    }

    method BitUnset(s: nat)
      requires s < 8 * |mem|
      modifies this
      ensures |mem| == old(|mem|)
      ensures forall t | 0 <= t < 8 * |mem| :: IsSet(t) == (t != s && old(IsSet(t)))
    {
      mem := mem[s / 8 := mem[s / 8] & !Mask(s % 8)];
      forall t | 0 <= t < 8 * |mem| ensures IsSet(t) == (t != s && old(IsSet(t))) {
        if t / 8 == s / 8 {
          ClearBit(old(mem[s / 8]), s % 8, t % 8);
        }
      }
    }
  }

  lemma AllSet(i: nat)
    requires i < 8
    ensures Bit(0xFF, i)
  {
    Masks(i);
  }

  class CuckooCache {
    const hash: (nat, nat) -> nat
    const size: nat
    const flags: BitPackedFlags
    var table: seq<nat>
    var epochFlags: seq<bool>
    var epochHeuristicCounter: nat
    const epochSize: nat
    const depthLimit: nat

    constructor (hash: (nat, nat) -> nat, size: nat, depthLimit: nat)
      requires size > 0
      ensures Shaped() && fresh(flags) && State() == Fresh(hash, size, depthLimit)
    {
      this.hash := hash;
      this.size := size;
      flags := new BitPackedFlags(size);
      table := seq(size, _ => DEFAULT);
      epochFlags := seq(size, _ => false);
      epochSize := Max(1, 45 * size / 100);
      epochHeuristicCounter := Max(1, 45 * size / 100);
      this.depthLimit := depthLimit;
    }

    ghost predicate Shaped()
      reads this, flags
    {
      size > 0 && |table| == |epochFlags| == size && size <= 8 * |flags.mem|
    }

    ghost function Collected(): seq<bool>
      requires Shaped()
      reads this, flags
    {
      seq(size, i requires 0 <= i < size && Shaped() reads this, flags => flags.IsSet(i))
    }

    ghost function State(): (c: Cache)
      requires Shaped()
      reads this, flags
      ensures c.Sized()
    {
      Cache(hash, table, Collected(), epochFlags, epochHeuristicCounter, epochSize, depthLimit)
    }

    function ComputeHashes(e: nat): (ls: seq<nat>)
      requires size > 0
      ensures |ls| == 8 && forall k | 0 <= k < 8 :: ls[k] < size
    {
      seq(8, k requires 0 <= k < 8 && size > 0 => hash(k, e) % size)
    }

    method AllowEraseAt(n: nat)
      requires Shaped() && n < size
      modifies flags
      ensures Shaped() && Collected() == old(Collected())[n := true]
    {
      flags.BitSet(n);
    }

    method PleaseKeep(n: nat)
      requires Shaped() && n < size
      modifies flags
      ensures Shaped() && Collected() == old(Collected())[n := false]
    {
      flags.BitUnset(n);
    }

    /** Look for a place of `e` that holds it. */
    method Find(e: nat) returns (k: nat)
      requires Shaped()
      ensures k == FirstTrue(Holding(State(), State().Locs(e), e))
    {
      ghost var b := Holding(State(), State().Locs(e), e);
      var locs := ComputeHashes(e);
      k := 0;
      while k < 8
        invariant k <= 8 && forall j | 0 <= j < k :: !b[j]
      {
        assert b[k] == (table[locs[k]] == e);
        if table[locs[k]] == e {
          break;
        }
        k := k + 1;
      }
    }

    method FindFree(e: nat) returns (k: nat)
      requires Shaped()
      ensures k == FirstTrue(Free(State(), State().Locs(e)))
    {
      ghost var b := Free(State(), State().Locs(e));
      var locs := ComputeHashes(e);
      k := 0;
      while k < 8
        invariant k <= 8 && forall j | 0 <= j < k :: !b[j]
      {
        assert b[k] == flags.IsSet(locs[k]);
        if flags.IsSet(locs[k]) {
          break;
        }
        k := k + 1;
      }
    }

    method CountLive() returns (count: nat)
      requires Shaped()
      ensures count == Live(State())
    {
      ghost var c := State();
      count := 0;
      assert LiveBelow(c, 0) == {};
      for i := 0 to size
        invariant count == |LiveBelow(c, i)|
      {
        LiveBelowNext(c, i);
        if epochFlags[i] && !flags.IsSet(i) {
          count := count + 1;
        }
      }
      assert LiveBelow(c, size) == LiveSlots(c);
    }

    method AgeAll()
      requires Shaped()
      modifies this`epochFlags, flags
      ensures Shaped() && State() == Age(old(State()))
    {
      ghost var c := State();
      for i := 0 to size
        invariant Shaped()
        invariant forall j | 0 <= j < size :: Collected()[j] == (c.collected[j] || (j < i && !c.recent[j]))
        invariant forall j | 0 <= j < size :: epochFlags[j] == (j >= i && c.recent[j])
      {
        if epochFlags[i] {
          epochFlags := epochFlags[i := false];
        } else {
          AllowEraseAt(i);
        }
      }
      assert Collected() == Age(c).collected;
      assert epochFlags == Age(c).recent;
    }

    method EpochChecked()
      requires Shaped()
      modifies this`epochFlags, this`epochHeuristicCounter, flags
      ensures Shaped() && State() == EpochCheck(old(State()))
    {
      if epochHeuristicCounter != 0 {
        epochHeuristicCounter := epochHeuristicCounter - 1;
        return;
      }
      var unused := CountLive();
      if unused >= epochSize {
        AgeAll();
        epochHeuristicCounter := epochSize;
      } else {
        epochHeuristicCounter := Max(1, Max(epochSize / 16, epochSize - unused));
      }
    }

    method KeepAt(at: nat, recent: bool)
      requires Shaped() && at < size
      modifies this`epochFlags, flags
      ensures Shaped() && State() == Keep(old(State()), at, recent)
    {
      PleaseKeep(at);
      ghost var flagged := Collected();
      epochFlags := epochFlags[at := recent];
      assert Collected() == flagged;
    }

    method PutAt(at: nat, e: nat, recent: bool)
      requires Shaped() && at < size
      modifies this`table, this`epochFlags, flags
      ensures Shaped() && State() == Put(old(State()), at, e, recent)
    {
      table := table[at := e];
      assert Collected() == old(Collected());
      PleaseKeep(at);
      ghost var flagged := Collected();
      epochFlags := epochFlags[at := recent];
      assert Collected() == flagged;
    }

    method SwapAt(at: nat, e: nat, recent: bool) returns (evicted: nat, epoch: bool)
      requires Shaped() && at < size
      modifies this`table, this`epochFlags
      ensures Shaped() && State() == Swap(old(State()), at, e, recent)
      ensures evicted == old(table[at]) && epoch == old(epochFlags[at])
    {
      evicted, epoch := table[at], epochFlags[at];
      table := table[at := e];
      epochFlags := epochFlags[at := recent];
      assert Collected() == old(Collected());
    }

    method DisplaceFrom(element: nat)
      requires Shaped()
      modifies this`table, this`epochFlags, flags
      ensures Shaped() && State() == Displace(old(State()), element, -1, true, 0)
    {
      hide Displace, FirstTrue, Put, Swap, Free, Same;
      ghost var target := Displace(State(), element, -1, true, 0);
      var e, lastLoc: int, lastEpoch := element, -1, true;
      var depth: nat := 0;
      while depth < depthLimit
        invariant Shaped() && target == Displace(State(), e, lastLoc, lastEpoch, depth)
      {
        ghost var before := State();
        DisplaceOnce(before, e, lastLoc, lastEpoch, depth);
        var k := FindFree(e);
        var locs := ComputeHashes(e);
        assert locs == before.Locs(e);
        if k < 8 {
          PutAt(locs[k], e, lastEpoch);
          return;
        }
        var found := Position(locs, lastLoc);
        lastLoc := locs[(1 + found) % 8];
        e, lastEpoch := SwapAt(lastLoc, e, lastEpoch);
        depth := depth + 1;
      }
      DisplaceStops(State(), e, lastLoc, lastEpoch, depth);
    }

    method InsertElement(e: nat)
      requires Shaped()
      modifies this`table, this`epochFlags, this`epochHeuristicCounter, flags
      ensures Shaped() && State() == Insert(old(State()), e)
    {
      hide EpochCheck, Displace, Holding, FirstTrue, Keep;
      EpochChecked();
      var locs := ComputeHashes(e);
      assert locs == State().Locs(e);
      var k := Find(e);
      if k < 8 {
        KeepAt(locs[k], true);
      } else {
        DisplaceFrom(e);
      }
    }

    method ContainsElement(e: nat, erase: bool) returns (found: bool)
      requires Shaped()
      modifies flags
      ensures Shaped() && found == Contains(old(State()), e)
      ensures State() == if erase then AllowErase(old(State()), e) else old(State())
    {
      var k := Find(e);
      found := k < 8;
      var locs := ComputeHashes(e);
      assert locs == State().Locs(e);
      if found && erase {
        AllowEraseAt(locs[k]);
      }
    }
  }

  method Position(ls: seq<nat>, x: int) returns (k: nat)
    ensures k == FirstTrue(Same(ls, x))
  {
    ghost var b := Same(ls, x);
    k := 0;
    while k < |ls|
      invariant k <= |ls| && forall j | 0 <= j < k :: !b[j]
    {
      assert b[k] == (ls[k] == x);
      if ls[k] == x {
        break;
      }
      k := k + 1;
    }
  }

  ghost function LiveBelow(c: Cache, n: nat): set<nat>
    requires c.Sized()
  {
    set i | 0 <= i < n && LiveAt(c, i)
  }

  lemma LiveBelowNext(c: Cache, n: nat)
    requires c.Sized()
    ensures |LiveBelow(c, n + 1)| == |LiveBelow(c, n)| + if LiveAt(c, n) then 1 else 0
  {
    assert LiveBelow(c, n + 1) == if LiveAt(c, n) then LiveBelow(c, n) + {n} else LiveBelow(c, n);
  }

  lemma DisplaceOnce(c: Cache, e: nat, lastLoc: int, lastEpoch: bool, depth: nat)
    requires c.Sized() && depth < c.depthLimit
    ensures
      var ls := c.Locs(e);
      var k, at := FirstTrue(Free(c, ls)), ls[(1 + FirstTrue(Same(ls, lastLoc))) % 8];
      Displace(c, e, lastLoc, lastEpoch, depth)
      == if k < 8 then Put(c, ls[k], e, lastEpoch)
         else Displace(Swap(c, at, e, lastEpoch), c.table[at], at, c.recent[at], depth + 1)
  {
  }
}
