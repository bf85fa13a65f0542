/**
 The cuckoo cache of `src/cuckoocache.h` as a value: eight places for each element, displacement up to a depth
 limit, lazy erasure by flags, and epochs.  The default element, which fills an empty table, is 0.
 */
module CuckooSpec {
  import opened Arithmetic

  const DEFAULT: nat := 0

  datatype Cache = Cache(
    hash: (nat, nat) -> nat,
    table: seq<nat>,
    collected: seq<bool>,
    recent: seq<bool>,
    counter: nat,
    epochSize: nat,
    depthLimit: nat)
  {
    predicate Sized() { |table| == |collected| == |recent| > 0 }

    function Locs(e: nat): (ls: seq<nat>)
      requires Sized()
      ensures |ls| == 8 && forall k | 0 <= k < 8 :: ls[k] < |table|
    {
      seq(8, k requires 0 <= k < 8 => hash(k, e) % |table|)
    }
  }

  /** The first index that holds, or the length. */
  function FirstTrue(b: seq<bool>): (k: nat)
    ensures k <= |b| && (k < |b| ==> b[k]) && forall j | 0 <= j < k :: !b[j]
  {
    if b == [] || b[0] then 0 else 1 + FirstTrue(b[1..])
  }

  function Holding(c: Cache, ls: seq<nat>, e: nat): (b: seq<bool>)
    requires forall k | 0 <= k < |ls| :: ls[k] < |c.table|
  {
    seq(|ls|, k requires 0 <= k < |ls| => c.table[ls[k]] == e)
  }

  function Free(c: Cache, ls: seq<nat>): (b: seq<bool>)
    requires forall k | 0 <= k < |ls| :: ls[k] < |c.collected|
  {
    seq(|ls|, k requires 0 <= k < |ls| => c.collected[ls[k]])
  }

  function Same(ls: seq<nat>, x: int): seq<bool> {
    seq(|ls|, k requires 0 <= k < |ls| => ls[k] == x)
  }

  // ----- the operations -----

  /** Whether a slot counts for the current epoch. */
  predicate LiveAt(c: Cache, i: nat)
    requires c.Sized()
  {
    i < |c.table| && c.recent[i] && !c.collected[i]
  }

  function LiveSlots(c: Cache): set<nat>
    requires c.Sized()
  {
    set i | 0 <= i < |c.table| && LiveAt(c, i)
  }

  function Live(c: Cache): nat
    requires c.Sized()
  {
    |LiveSlots(c)|
  }

  /** Everything not recent becomes garbage, everything recent becomes old. */
  function Age(c: Cache): Cache
    requires c.Sized()
  {
    c.(collected := seq(|c.table|, i requires 0 <= i < |c.table| => c.collected[i] || !c.recent[i]),
       recent := seq(|c.table|, _ => false))
  }

  function EpochCheck(c: Cache): (r: Cache)
    requires c.Sized()
    ensures r.Sized() && r.table == c.table && r.hash == c.hash
  {
    if c.counter != 0 then c.(counter := c.counter - 1)
    else if Live(c) >= c.epochSize then Age(c).(counter := c.epochSize)
    else c.(counter := Max(1, Max(c.epochSize / 16, c.epochSize - Live(c))))
  }

  function Keep(c: Cache, at: nat, recent: bool): (r: Cache)
    requires c.Sized() && at < |c.table|
    ensures r.Sized()
  {
    c.(collected := c.collected[at := false], recent := c.recent[at := recent])
  }

  function Put(c: Cache, at: nat, e: nat, recent: bool): (r: Cache)
    requires c.Sized() && at < |c.table|
    ensures r.Sized()
  {
    Keep(c, at, recent).(table := c.table[at := e])
  }

  function Swap(c: Cache, at: nat, e: nat, recent: bool): (r: Cache)
    requires c.Sized() && at < |c.table|
    ensures r.Sized() && r.depthLimit == c.depthLimit
  {
    c.(table := c.table[at := e], recent := c.recent[at := recent])
  }

  /** Put an element that is in hand somewhere, moving others on until the depth limit. */
  function Displace(c: Cache, e: nat, lastLoc: int, lastEpoch: bool, depth: nat): (r: Cache)
    requires c.Sized()
    ensures r.Sized()
    decreases c.depthLimit - depth
  {
    if depth >= c.depthLimit then c
    else
      var ls := c.Locs(e);
      var k := FirstTrue(Free(c, ls));
      if k < 8 then Put(c, ls[k], e, lastEpoch)
      else
        var at := ls[(1 + FirstTrue(Same(ls, lastLoc))) % 8];
        Displace(Swap(c, at, e, lastEpoch), c.table[at], at, c.recent[at], depth + 1)
  }

  function Insert(c: Cache, e: nat): (r: Cache)
    requires c.Sized()
    ensures r.Sized()
  {
    var c1 := EpochCheck(c);
    var ls := c1.Locs(e);
    var k := FirstTrue(Holding(c1, ls, e));
    if k < 8 then Keep(c1, ls[k], true) else Displace(c1, e, -1, true, 0)
  }

  function Contains(c: Cache, e: nat): bool
    requires c.Sized()
  {
    FirstTrue(Holding(c, c.Locs(e), e)) < 8
  }

  function AllowErase(c: Cache, e: nat): (r: Cache)
    requires c.Sized()
    ensures r.Sized()
  {
    var ls := c.Locs(e);
    var k := FirstTrue(Holding(c, ls, e));
    if k < 8 then c.(collected := c.collected[ls[k] := true]) else c
  }

  // ----- what always holds -----

  /** An element sits in one of its own places, nowhere else twice, and what is kept is a real element. */
  ghost predicate Placed(c: Cache) {
    && c.Sized()
    && (forall i | 0 <= i < |c.table| && c.table[i] != DEFAULT :: i in c.Locs(c.table[i]))
    && (forall i, j | 0 <= i < j < |c.table| && c.table[i] != DEFAULT :: c.table[i] != c.table[j])
    && (forall i | 0 <= i < |c.table| && !c.collected[i] :: c.table[i] != DEFAULT)
  }

  /** The epoch can only grow as far as the counter lets it. */
  ghost predicate Paced(c: Cache) {
    c.Sized() && Live(c) + c.counter <= c.epochSize + Max(1, c.epochSize / 16)
  }

  ghost predicate Inv(c: Cache) { Placed(c) && Paced(c) }

  /** The elements that are not garbage. */
  function Kept(c: Cache): set<nat>
    requires c.Sized()
  {
    set i | 0 <= i < |c.table| && !c.collected[i] :: c.table[i]
  }

  /** The elements of the current epoch. */
  function Recent(c: Cache): set<nat>
    requires c.Sized()
  {
    set i | 0 <= i < |c.table| && LiveAt(c, i) :: c.table[i]
  }

  // ----- lookup -----

  lemma LookupIsMembership(c: Cache, e: nat)
    requires Placed(c) && e != DEFAULT
    ensures Contains(c, e) <==> e in c.table
  {
    var ls := c.Locs(e);
    var b := Holding(c, ls, e);
    if e in c.table {
      var i :| 0 <= i < |c.table| && c.table[i] == e;
      assert i in ls;
      var k :| 0 <= k < 8 && ls[k] == i;
      assert b[k];
    }
  }

  lemma PutKeepsPlaced(c: Cache, at: nat, e: nat, recent: bool)
    requires Placed(c) && e != DEFAULT && e !in c.table && at < |c.table| && at in c.Locs(e)
    ensures Placed(Put(c, at, e, recent))
  {
    var r := Put(c, at, e, recent);
    assert forall x :: r.Locs(x) == c.Locs(x);
  }

  /** Swapping the element in hand for the one at a kept place. */
  lemma SwapKeepsPlaced(c: Cache, at: nat, e: nat, recent: bool)
    requires Placed(c) && e != DEFAULT && e !in c.table && at < |c.table| && at in c.Locs(e) && !c.collected[at]
    ensures
      var r := Swap(c, at, e, recent);
      Placed(r) && c.table[at] != DEFAULT && c.table[at] !in r.table
      && Kept(r) == Kept(c) - {c.table[at]} + {e} && e !in Kept(c)
  {
    var r := Swap(c, at, e, recent);
    assert forall x :: r.Locs(x) == c.Locs(x);
    KeptSwap(c, r, at, e);
  }

  lemma KeptSwap(c: Cache, r: Cache, at: nat, e: nat)
    requires c.Sized() && r.Sized() && at < |c.table| && r.table == c.table[at := e] && r.collected == c.collected
        && !c.collected[at]
    requires forall j | 0 <= j < |c.table| && j != at :: c.table[j] != c.table[at]
    ensures Kept(r) == Kept(c) - {c.table[at]} + {e}
  {
    forall x | x in Kept(r) ensures x in Kept(c) - {c.table[at]} + {e} {
      var i :| 0 <= i < |r.table| && !r.collected[i] && r.table[i] == x;
      assert i != at ==> c.table[i] == x;
    }
    forall x | x in Kept(c) - {c.table[at]} + {e} ensures x in Kept(r) {
      if x == e {
        assert r.table[at] == e;
      } else {
        var i :| 0 <= i < |c.table| && !c.collected[i] && c.table[i] == x;
        assert r.table[i] == x;
      }
    }
  }

  lemma KeptPut(c: Cache, at: nat, e: nat, recent: bool)
    requires c.Sized() && at < |c.table| && c.collected[at]
    ensures Kept(Put(c, at, e, recent)) == Kept(c) + {e}
  {
    var r := Put(c, at, e, recent);
    forall x | x in Kept(r) ensures x in Kept(c) + {e} {
      var i :| 0 <= i < |r.table| && !r.collected[i] && r.table[i] == x;
      assert i != at ==> c.table[i] == x;
    }
    forall x | x in Kept(c) + {e} ensures x in Kept(r) {
      if x == e {
        assert r.table[at] == e && !r.collected[at];
      } else {
        var i :| 0 <= i < |c.table| && !c.collected[i] && c.table[i] == x;
        assert r.table[i] == x && !r.collected[i];
      }
    }
  }

  // ----- the elements of the epoch -----

  /** Changing one slot changes the elements of the epoch by what stood there and what stands there now. */
  lemma RecentChange(c: Cache, r: Cache, at: nat)
    requires c.Sized() && r.Sized() && |r.table| == |c.table| && at < |c.table|
    requires forall i: nat | i < |c.table| && i != at :: LiveAt(r, i) == LiveAt(c, i) && r.table[i] == c.table[i]
    requires forall i: nat | i < |c.table| && i != at && LiveAt(c, i) :: c.table[i] != c.table[at]
    ensures Recent(r) == Recent(c) - {c.table[at]} + (if LiveAt(r, at) then {r.table[at]} else {})
    ensures c.table[at] in Recent(c) <==> LiveAt(c, at)
  {
    forall x | x in Recent(r) ensures x in Recent(c) - {c.table[at]} + (if LiveAt(r, at) then {r.table[at]} else {}) {
      var i :| 0 <= i < |r.table| && LiveAt(r, i) && r.table[i] == x;
      assert i != at ==> LiveAt(c, i) && c.table[i] == x;
    }
    forall x | x in Recent(c) - {c.table[at]} ensures x in Recent(r) {
      var i :| 0 <= i < |c.table| && LiveAt(c, i) && c.table[i] == x;
      assert LiveAt(r, i) && r.table[i] == x;
    }
    if LiveAt(r, at) {
      assert r.table[at] in Recent(r);
    }
  }

  /** An element that is not garbage stands in one slot only. */
  lemma StandsAlone(c: Cache, at: nat, i: nat)
    requires Placed(c) && at < |c.table| && i < |c.table| && i != at && !c.collected[i]
    ensures c.table[i] != c.table[at]
  {
    if i < at {
      assert c.table[i] != c.table[at];
    } else {
      assert c.table[at] != DEFAULT ==> c.table[at] != c.table[i];
    }
  }

  lemma AllStandAlone(c: Cache, at: nat)
    requires Placed(c) && at < |c.table|
    ensures forall i: nat | i < |c.table| && i != at && LiveAt(c, i) :: c.table[i] != c.table[at]
  {
    forall i: nat | i < |c.table| && i != at && LiveAt(c, i) ensures c.table[i] != c.table[at] {
      StandsAlone(c, at, i);
    }
  }

  lemma RecentPut(c: Cache, at: nat, e: nat, recent: bool)
    requires Placed(c) && at < |c.table| && c.collected[at]
    ensures Recent(Put(c, at, e, recent)) == Recent(c) + if recent then {e} else {}
  {
    AllStandAlone(c, at);
    hide Placed;
    RecentChange(c, Put(c, at, e, recent), at);
  }

  lemma RecentKeep(c: Cache, at: nat)
    requires Placed(c) && at < |c.table|
    ensures Recent(Keep(c, at, true)) == Recent(c) + {c.table[at]}
  {
    AllStandAlone(c, at);
    hide Placed;
    RecentChange(c, Keep(c, at, true), at);
  }

  lemma RecentSwap(c: Cache, at: nat, e: nat, recent: bool)
    requires Placed(c) && at < |c.table| && !c.collected[at]
    ensures Recent(Swap(c, at, e, recent)) == Recent(c) - {c.table[at]} + if recent then {e} else {}
    ensures c.table[at] in Recent(c) <==> c.recent[at]
  {
    AllStandAlone(c, at);
    hide Placed;
    RecentChange(c, Swap(c, at, e, recent), at);
  }

  // ----- counting the live slots -----

  /** Changing one slot changes the count by that slot alone. */
  lemma LiveChange(c: Cache, r: Cache, at: nat)
    requires c.Sized() && r.Sized() && |r.table| == |c.table| && at < |c.table|
    requires forall i: nat | i < |c.table| && i != at :: LiveAt(r, i) == LiveAt(c, i)
    ensures Live(r) == Live(c) - (if LiveAt(c, at) then 1 else 0) + (if LiveAt(r, at) then 1 else 0)
  {
    assert LiveSlots(r) - {at} == LiveSlots(c) - {at};
    assert (at in LiveSlots(c) <==> LiveAt(c, at)) && (at in LiveSlots(r) <==> LiveAt(r, at));
    hide LiveSlots, LiveAt;
    SizeChange(LiveSlots(c), at);
    SizeChange(LiveSlots(r), at);
  }

  lemma SizeChange(s: set<nat>, at: nat)
    ensures |s| == |s - {at}| + if at in s then 1 else 0
  {
    assert at in s ==> s == s - {at} + {at};
    assert at !in s ==> s == s - {at};
  }

  // ----- insertion -----

  /** The outcome of putting down an element in hand: all kept elements and it are kept, but for `lost`. */
  ghost predicate Settled(c: Cache, e: nat, lastEpoch: bool, r: Cache, lost: set<nat>)
    requires c.Sized()
  {
    && Placed(r) && r.counter == c.counter && r.epochSize == c.epochSize
    && Kept(r) == Kept(c) + {e} - lost && lost <= Kept(c) + {e} && |lost| <= 1
    && Recent(r) == Recent(c) + (if lastEpoch then {e} else {}) - lost
    && Live(r) <= Live(c) + if lastEpoch then 1 else 0
  }

  lemma SettledByDrop(c: Cache, e: nat, lastEpoch: bool)
    requires Placed(c) && e !in c.table
    ensures Settled(c, e, lastEpoch, c, {e})
  {
    PlacedSized(c);
    NotRecent(c, e);
    hide Placed, Kept, Live, Recent;
    NotKept(c, e);
    assert Kept(c) + {e} - {e} == Kept(c);
    assert Recent(c) + (if lastEpoch then {e} else {}) - {e} == Recent(c);
  }

  lemma SettledByPut(c: Cache, at: nat, e: nat, lastEpoch: bool)
    requires Placed(c) && e != DEFAULT && e !in c.table && at < |c.table| && at in c.Locs(e) && c.collected[at]
    ensures Settled(c, e, lastEpoch, Put(c, at, e, lastEpoch), {})
  {
    PutKeepsPlaced(c, at, e, lastEpoch);
    RecentPut(c, at, e, lastEpoch);
    KeptPut(c, at, e, lastEpoch);
    LivePut(c, at, e, lastEpoch);
    PutShape(c, at, e, lastEpoch);
    hide Placed, Kept, Live, Recent, Put;
    NoneLost(Kept(c) + {e});
    NoneLost(Recent(c) + if lastEpoch then {e} else {});
  }

  lemma NoneLost(s: set<nat>)
    ensures s - {} == s
  {
  }

  lemma PutShape(c: Cache, at: nat, e: nat, recent: bool)
    requires c.Sized() && at < |c.table|
    ensures var r := Put(c, at, e, recent); r.counter == c.counter && r.epochSize == c.epochSize
  {
  }

  lemma SettledBySwap(c: Cache, at: nat, e: nat, lastEpoch: bool, r: Cache, lost: set<nat>)
    requires Placed(c) && e != DEFAULT && e !in c.table && at < |c.table| && at in c.Locs(e) && !c.collected[at]
    requires Settled(Swap(c, at, e, lastEpoch), c.table[at], c.recent[at], r, lost)
    ensures Settled(c, e, lastEpoch, r, lost)
  {
    var s, y := Swap(c, at, e, lastEpoch), c.table[at];
    assert s.counter == c.counter && s.epochSize == c.epochSize;
    SwapKeepsPlaced(c, at, e, lastEpoch);
    RecentSwap(c, at, e, lastEpoch);
    LiveSwap(c, at, e, lastEpoch);
    KeptHas(c, at);
    hide Placed, Kept, Live, Recent, Swap;
    Exchanged(Kept(c), Kept(s), y, true, e, true);
    Exchanged(Recent(c), Recent(s), y, c.recent[at], e, lastEpoch);
  }

  lemma Exchanged(before: set<nat>, after: set<nat>, y: nat, had: bool, e: nat, has: bool)
    requires after == before - {y} + (if has then {e} else {}) && (y in before <==> had)
    ensures after + (if had then {y} else {}) == before + if has then {e} else {}
  {
  }

  /** One of the places of an element may be taken. */
  predicate HasFree(c: Cache, e: nat)
    requires c.Sized()
  {
    exists k | 0 <= k < 8 :: c.collected[c.Locs(e)[k]]
  }

  lemma DisplaceStops(c: Cache, e: nat, lastLoc: int, lastEpoch: bool, depth: nat)
    requires c.Sized() && depth >= c.depthLimit
    ensures Displace(c, e, lastLoc, lastEpoch, depth) == c
  {
  }

  /** One step: a free place is taken, or a kept element is moved out of one of the places. */
  lemma DisplaceUnfolds(c: Cache, e: nat, lastLoc: int, lastEpoch: bool, depth: nat) returns (at: nat)
    requires c.Sized() && depth < c.depthLimit
    ensures at < |c.table| && at in c.Locs(e) && (c.collected[at] <==> HasFree(c, e))
    ensures Displace(c, e, lastLoc, lastEpoch, depth)
            == if c.collected[at] then Put(c, at, e, lastEpoch)
               else Displace(Swap(c, at, e, lastEpoch), c.table[at], at, c.recent[at], depth + 1)
  {
    hide Put, Swap;
    var ls := c.Locs(e);
    var k := FirstTrue(Free(c, ls));
    if k < 8 {
      at := ls[k];
      FreeMeans(c, ls, k);
    } else {
      var j := (1 + FirstTrue(Same(ls, lastLoc))) % 8;
      at := ls[j];
      forall i | 0 <= i < 8 ensures !c.collected[ls[i]] {
        NoneFree(c, ls, i);
      }
    }
  }

  /**
   Putting down the element in hand: the kept elements gain it and lose at most one of them all, namely the one
   still in hand when the depth limit is reached.  Nothing is lost when the first look finds a free place.
   */
  lemma {:induction false} DisplaceSpec(c: Cache, e: nat, lastLoc: int, lastEpoch: bool, depth: nat)
          returns (lost: set<nat>)
    requires Placed(c) && e != DEFAULT && e !in c.table
    ensures Settled(c, e, lastEpoch, Displace(c, e, lastLoc, lastEpoch, depth), lost)
    ensures depth < c.depthLimit && HasFree(c, e) ==> lost == {}
    decreases c.depthLimit - depth
  {
    hide *;
    PlacedSized(c);
    if depth >= c.depthLimit {
      lost := {e};
      DisplaceStops(c, e, lastLoc, lastEpoch, depth);
      SettledByDrop(c, e, lastEpoch);
    } else {
      var at := DisplaceUnfolds(c, e, lastLoc, lastEpoch, depth);
      if c.collected[at] {
        lost := {};
        SettledByPut(c, at, e, lastEpoch);
      } else {
        SwapKeepsPlaced(c, at, e, lastEpoch);
        lost := DisplaceSpec(Swap(c, at, e, lastEpoch), c.table[at], at, c.recent[at], depth + 1);
        SettledBySwap(c, at, e, lastEpoch, Displace(c, e, lastLoc, lastEpoch, depth), lost);
      }
    }
  }

  lemma PlacedSized(c: Cache)
    requires Placed(c)
    ensures c.Sized() && |c.collected| == |c.recent| == |c.table|
  {
  }

  lemma NotKept(c: Cache, e: nat)
    requires c.Sized() && e !in c.table
    ensures e !in Kept(c)
  {
  }

  lemma NotRecent(c: Cache, e: nat)
    requires c.Sized() && e !in c.table
    ensures e !in Recent(c)
  {
  }

  lemma KeptHas(c: Cache, at: nat)
    requires c.Sized() && at < |c.table| && !c.collected[at]
    ensures c.table[at] in Kept(c)
  {
  }

  lemma FreeMeans(c: Cache, ls: seq<nat>, k: nat)
    requires (forall j | 0 <= j < |ls| :: ls[j] < |c.collected|) && k < |ls| && k == FirstTrue(Free(c, ls))
    ensures c.collected[ls[k]]
  {
  }

  lemma NoneFree(c: Cache, ls: seq<nat>, k: nat)
    requires (forall j | 0 <= j < |ls| :: ls[j] < |c.collected|) && k < |ls| && |ls| <= FirstTrue(Free(c, ls))
    ensures !c.collected[ls[k]]
  {
    assert Free(c, ls)[k] == c.collected[ls[k]];
  }

  lemma LivePut(c: Cache, at: nat, e: nat, recent: bool)
    requires c.Sized() && at < |c.table| && c.collected[at]
    ensures Live(Put(c, at, e, recent)) == Live(c) + if recent then 1 else 0
  {
    LiveChange(c, Put(c, at, e, recent), at);
  }

  lemma LiveKeep(c: Cache, at: nat)
    requires c.Sized() && at < |c.table|
    ensures Live(Keep(c, at, true)) <= Live(c) + 1
  {
    LiveChange(c, Keep(c, at, true), at);
  }

  lemma LiveSwap(c: Cache, at: nat, e: nat, recent: bool)
    requires c.Sized() && at < |c.table| && !c.collected[at]
    ensures
      var r := Swap(c, at, e, recent);
      Live(r) == Live(c) - (if c.recent[at] then 1 else 0) + (if recent then 1 else 0)
  {
    var r := Swap(c, at, e, recent);
    LiveChange(c, r, at);
  }

  // ----- epochs -----

  lemma LiveAged(c: Cache)
    requires c.Sized()
    ensures Live(Age(c)) == 0
  {
    assert LiveSlots(Age(c)) == {};
  }

  /** Aging drops only elements that were not stored or asked for again in the current epoch. */
  lemma AgeKeepsRecent(c: Cache)
    requires c.Sized()
    ensures Kept(Age(c)) == Recent(c) && Recent(Age(c)) == {}
  {
    var r := Age(c);
    assert forall i | 0 <= i < |c.table| :: r.collected[i] <==> c.collected[i] || !c.recent[i];
  }

  /**
   After the check there is room for one more entry of the epoch.  The cache ages exactly when a scan is due and
   finds the epoch full, and the next scan is due when the epoch could be full again.
   */
  lemma EpochCheckSpec(c: Cache)
    requires Inv(c)
    ensures
      var r, ages := EpochCheck(c), c.counter == 0 && Live(c) >= c.epochSize;
      && Placed(r) && r.epochSize == c.epochSize && r.table == c.table
      && Kept(r) == (if ages then Kept(Age(c)) else Kept(c))
      && Kept(Age(r)) == (if ages then {} else Kept(Age(c)))
      && Live(r) + 1 + r.counter <= c.epochSize + Max(1, c.epochSize / 16)
      && (c.counter > 0 ==> r.counter == c.counter - 1)
      && (c.counter == 0 ==> c.epochSize <= Live(r) + r.counter && (r.counter > 0 || ages))
      && (ages ==> r.counter == c.epochSize)
  {
    AgeKeepsRecent(c);
    AgeKeepsRecent(EpochCheck(c));
    if c.counter != 0 {
      SameFlags(c, EpochCheck(c));
    } else if Live(c) >= c.epochSize {
      LiveAged(c);
      SameFlags(Age(c), EpochCheck(c));
      AgeKeepsPlaced(c);
    } else {
      SameFlags(c, EpochCheck(c));
    }
  }

  lemma SameFlags(c: Cache, r: Cache)
    requires c.Sized() && r.table == c.table && r.collected == c.collected && r.recent == c.recent && r.hash == c.hash
    ensures r.Sized() && Live(r) == Live(c) && Kept(r) == Kept(c) && Recent(r) == Recent(c)
    ensures Placed(c) ==> Placed(r)
  {
    assert LiveSlots(r) == LiveSlots(c);
    assert forall x :: r.Locs(x) == c.Locs(x);
  }

  lemma AgeKeepsPlaced(c: Cache)
    requires Placed(c)
    ensures Placed(Age(c))
  {
    var r := Age(c);
    assert forall x :: r.Locs(x) == c.Locs(x);
    assert forall i | 0 <= i < |c.table| :: r.collected[i] <==> c.collected[i] || !c.recent[i];
  }

  lemma KeepSpec(c: Cache, at: nat)
    requires Placed(c) && at < |c.table| && c.table[at] != DEFAULT
    ensures Placed(Keep(c, at, true)) && Kept(Keep(c, at, true)) == Kept(c) + {c.table[at]}
  {
    var r := Keep(c, at, true);
    assert forall x :: r.Locs(x) == c.Locs(x);
    assert r.table[at] in Kept(r) by { assert !r.collected[at]; }
    forall x | x in Kept(c) ensures x in Kept(r) {
      var i :| 0 <= i < |c.table| && !c.collected[i] && c.table[i] == x;
      assert !r.collected[i] && r.table[i] == x;
    }
    forall x | x in Kept(r) ensures x in Kept(c) + {c.table[at]} {
      var i :| 0 <= i < |r.table| && !r.collected[i] && r.table[i] == x;
      assert i != at ==> !c.collected[i] && c.table[i] == x;
    }
  }

  lemma HeldMeans(c: Cache, ls: seq<nat>, e: nat, k: nat)
    requires (forall j | 0 <= j < |ls| :: ls[j] < |c.table|) && k < |ls| && k == FirstTrue(Holding(c, ls, e))
    ensures c.table[ls[k]] == e
  {
  }

  /**
   Inserting an element: after the epoch check, everything kept stays kept together with the new element,
   except at most one of them; and so do the elements that the next aging would keep, the new one among them.
   Nothing is lost when the element is there already or one of its places is free.
   */
  lemma InsertSpec(c: Cache, e: nat) returns (lost: set<nat>)
    requires Inv(c) && e != DEFAULT
    ensures Inv(Insert(c, e))
    ensures
      var all := Kept(EpochCheck(c)) + {e};
      && Kept(Insert(c, e)) == all - lost && lost <= all && |lost| <= 1
      && Kept(Age(Insert(c, e))) == Kept(Age(EpochCheck(c))) + {e} - lost
    ensures e in c.table || (c.depthLimit > 0 && HasFree(EpochCheck(c), e)) ==> lost == {}
  {
    EpochCheckSpec(c);
    var c1 := EpochCheck(c);
    DepthStays(c);
    AgeKeepsRecent(c1);
    AgeKeepsRecent(Insert(c, e));
    assert c1.Locs(e) == c.Locs(e);
    hide Placed, Kept, Recent, Age, Live, EpochCheck, Displace, Keep, HasFree, Holding;
    LookupIsMembership(c1, e);
    var ls := c1.Locs(e);
    var k := FirstTrue(Holding(c1, ls, e));
    if k < 8 {
      HeldMeans(c1, ls, e, k);
      KeepSpec(c1, ls[k]);
      RecentKeep(c1, ls[k]);
      LiveKeep(c1, ls[k]);
      KeepCounter(c1, ls[k]);
      lost := {};
      assert Kept(c1) + {e} - {} == Kept(c1) + {e} && Recent(c1) + {e} - {} == Recent(c1) + {e};
    } else {
      lost := DisplaceSpec(c1, e, -1, true, 0);
    }
  }

  lemma DepthStays(c: Cache)
    requires c.Sized()
    ensures EpochCheck(c).depthLimit == c.depthLimit
  {
  }

  lemma KeepCounter(c: Cache, at: nat)
    requires c.Sized() && at < |c.table|
    ensures Keep(c, at, true).counter == c.counter && Keep(c, at, true).epochSize == c.epochSize
  {
  }

  /** Marking an element for collection leaves the table alone, so it can still be found. */
  lemma AllowEraseSpec(c: Cache, e: nat)
    requires Inv(c) && e != DEFAULT
    ensures Inv(AllowErase(c, e)) && AllowErase(c, e).table == c.table
    ensures Kept(AllowErase(c, e)) == Kept(c) - {e} && Kept(Age(AllowErase(c, e))) == Kept(Age(c)) - {e}
    ensures Contains(AllowErase(c, e), e) <==> Contains(c, e)
  {
    var r := AllowErase(c, e);
    var ls := c.Locs(e);
    var k := FirstTrue(Holding(c, ls, e));
    assert forall x :: r.Locs(x) == c.Locs(x);
    LookupIsMembership(c, e);
    LookupIsMembership(r, e);
    AgeKeepsRecent(c);
    AgeKeepsRecent(r);
    if k < 8 {
      HeldMeans(c, ls, e, k);
      LiveChange(c, r, ls[k]);
      KeptErased(c, r, ls[k]);
      AllStandAlone(c, ls[k]);
      RecentChange(c, r, ls[k]);
    } else {
      NotKept(c, e);
      NotRecent(c, e);
    }
  }

  lemma KeptErased(c: Cache, r: Cache, at: nat)
    requires Placed(c) && at < |c.table| && c.table[at] != DEFAULT
    requires r == c.(collected := c.collected[at := true])
    ensures Kept(r) == Kept(c) - {c.table[at]}
  {
    forall x | x in Kept(c) - {c.table[at]} ensures x in Kept(r) {
      var i :| 0 <= i < |c.table| && !c.collected[i] && c.table[i] == x;
      assert !r.collected[i] && r.table[i] == x;
    }
    forall x | x in Kept(r) ensures x in Kept(c) - {c.table[at]} {
      var i :| 0 <= i < |r.table| && !r.collected[i] && r.table[i] == x;
      assert i != at && !c.collected[i];
      if i < at { assert c.table[i] != c.table[at]; } else { assert c.table[at] != c.table[i]; }
    }
  }

  // ----- runs -----

  datatype Op = InsertOp(e: nat) | EraseOp(e: nat)

  function Apply(c: Cache, op: Op): (r: Cache)
    requires c.Sized()
    ensures r.Sized()
  {
    match op
    case InsertOp(e) => Insert(c, e)
    case EraseOp(e) => AllowErase(c, e)
  }

  function Run(c: Cache, ops: seq<Op>): (r: Cache)
    requires c.Sized()
    ensures r.Sized()
    decreases |ops|
  {
    if ops == [] then c else Run(Apply(c, ops[0]), ops[1..])
  }

  function Fresh(hash: (nat, nat) -> nat, size: nat, depthLimit: nat): (c: Cache)
    requires size > 0
    ensures c.Sized()
  {
    var epochSize := Max(1, 45 * size / 100);
    Cache(hash, seq(size, _ => DEFAULT), seq(size, _ => true), seq(size, _ => false), epochSize, epochSize, depthLimit)
  }

  lemma FreshInv(hash: (nat, nat) -> nat, size: nat, depthLimit: nat)
    requires size > 0
    ensures var c := Fresh(hash, size, depthLimit);
            && Inv(c) && Kept(c) == {} && |c.table| == size && c.counter == c.epochSize
            && (c.epochSize == 1 || 100 * c.epochSize <= 45 * size) && 45 * size < 100 * (c.epochSize + 1)
  {
    var c := Fresh(hash, size, depthLimit);
    assert LiveSlots(c) == {};
  }

  /**
   Over any run of inserts and erasures: lookup is membership in the table, and the live entries of the current
   epoch never exceed the epoch size by more than a sixteenth, or one.
   */
  lemma {:induction false} RunKeepsInv(c: Cache, ops: seq<Op>)
    requires Inv(c) && forall i | 0 <= i < |ops| :: ops[i].e != DEFAULT
    ensures
      var r := Run(c, ops);
      && Inv(r) && Live(r) <= r.epochSize + Max(1, r.epochSize / 16)
      && forall e: nat | e != DEFAULT :: Contains(r, e) <==> e in r.table
    decreases |ops|
  {
    hide Placed, Live, Insert, AllowErase, Contains, Kept;
    if ops == [] {
      forall e: nat | e != DEFAULT ensures Contains(c, e) <==> e in c.table {
        LookupIsMembership(c, e);
      }
    } else {
      match ops[0] {
        case InsertOp(e) => var _ := InsertSpec(c, e);
        case EraseOp(e) => AllowEraseSpec(c, e);
      }
      RunKeepsInv(Apply(c, ops[0]), ops[1..]);
    }
  }

  // ----- how long an element stays -----

  function Inserts(ops: seq<Op>): nat {
    if ops == [] then 0 else (if ops[0].InsertOp? then 1 else 0) + Inserts(ops[1..])
  }

  /** No insertion of the run pushes the element out, and nothing erases it. */
  ghost predicate Spared(c: Cache, ops: seq<Op>, x: nat)
    requires c.Sized()
    decreases |ops|
  {
    ops == [] ||
    (&& (match ops[0]
         case InsertOp(e) => x in Kept(EpochCheck(c)) ==> x in Kept(Insert(c, e))
         case EraseOp(e) => e != x)
     && Spared(Apply(c, ops[0]), ops[1..], x))
  }

  /** What one call leaves of an element that it does not push out or erase. */
  lemma SparedStep(c: Cache, op: Op, x: nat)
    requires Inv(c) && op.e != DEFAULT && Spared(c, [op], x)
    ensures
      var r := Apply(c, op);
      && Inv(r) && r.epochSize == c.epochSize
      && (op.EraseOp? ==> r.counter == c.counter && (x in Kept(c) ==> x in Kept(r))
                          && (x in Kept(Age(c)) ==> x in Kept(Age(r))))
      && (op.InsertOp? ==> r.counter == EpochCheck(c).counter && (x in Kept(EpochCheck(c)) ==> x in Kept(r))
                           && (x in Kept(Age(EpochCheck(c))) ==> x in Kept(Age(r))))
  {
    match op {
      case InsertOp(e) =>
        hide Placed, Kept, Live, EpochCheck, Displace, Age;
        var lost := InsertSpec(c, e);
        InsertShape(c, e);
        RecentIsKept(EpochCheck(c));
      case EraseOp(e) =>
        AllowEraseSpec(c, e);
        hide Placed, Kept, Live, Age;
    }
  }

  lemma RecentIsKept(c: Cache)
    requires c.Sized()
    ensures Kept(Age(c)) <= Kept(c)
  {
    AgeKeepsRecent(c);
  }

  lemma InsertShape(c: Cache, e: nat)
    requires Inv(c) && e != DEFAULT
    ensures Insert(c, e).counter == EpochCheck(c).counter && Insert(c, e).epochSize == c.epochSize
  {
    EpochCheckSpec(c);
    var c1 := EpochCheck(c);
    hide Placed, Kept, Live, EpochCheck, Displace, Holding;
    LookupIsMembership(c1, e);
    var k := FirstTrue(Holding(c1, c1.Locs(e), e));
    if k >= 8 {
      var lost := DisplaceSpec(c1, e, -1, true, 0);
    }
  }

  /** Until the counter runs out nothing ages. */
  lemma {:induction false} KeptWhileCounting(c: Cache, ops: seq<Op>, x: nat)
    requires Inv(c) && (forall i | 0 <= i < |ops| :: ops[i].e != DEFAULT) && Spared(c, ops, x)
    requires x in Kept(c) && Inserts(ops) <= c.counter
    ensures x in Kept(Run(c, ops))
    decreases |ops|
  {
    if ops != [] {
      EpochCheckSpec(c);
      assert Spared(c, [ops[0]], x);
      SparedStep(c, ops[0], x);
      hide Inv, Kept, Live, EpochCheck, Age, Apply;
      KeptWhileCounting(Apply(c, ops[0]), ops[1..], x);
    }
  }

  /**
   An element of the current epoch is kept through the next insertions, one more than the epoch has room for,
   unless one of them pushes it out or it is erased.
   */
  lemma {:induction false} KeptForAnEpoch(c: Cache, ops: seq<Op>, x: nat)
    requires Inv(c) && (forall i | 0 <= i < |ops| :: ops[i].e != DEFAULT) && Spared(c, ops, x)
    requires x in Kept(Age(c)) && Inserts(ops) <= c.epochSize + 1
    ensures x in Kept(Run(c, ops))
    decreases |ops|
  {
    RecentIsKept(c);
    if ops != [] {
      EpochCheckSpec(c);
      assert Spared(c, [ops[0]], x);
      SparedStep(c, ops[0], x);
      hide Inv, Kept, Live, EpochCheck, Age, Apply;
      var r := Apply(c, ops[0]);
      if ops[0].InsertOp? && c.counter == 0 && Live(c) >= c.epochSize {
        KeptWhileCounting(r, ops[1..], x);
      } else {
        KeptForAnEpoch(r, ops[1..], x);
      }
    }
  }
}
