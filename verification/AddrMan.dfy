/**
 `CAddrMan` as an object.  Each method's new state is the function of `AddrManSpec` or `AddrManOps` that
 models the call, applied to the old state; the code's assertions appear as assertions and are proved.
 */
module AddrMan {
  import opened Arithmetic
  import opened Options
  import opened AddrManSpec
  import opened Sets
  import Ops = AddrManOps

  class AddrManager {
    const h: Hashing

    var nIdCount: nat
    var mapInfo: InfoMap
    var mapAddr: map<NetAddr, nat>
    var vRandom: seq<nat>
    var nTried: int
    var vvTried: Table
    var nNew: int
    var vvNew: Table
    var nLastGood: int
    var collisions: set<nat>

    function Value(): State
      reads this
    {
      State(nIdCount, mapInfo, mapAddr, vRandom, nTried, vvTried, nNew, vvNew, nLastGood, collisions)
    }

    ghost predicate Valid()
      reads this
    {
      Inv(h, Value())
    }

    constructor (h: Hashing)
      requires h.Ok()
      ensures Valid() && this.h == h && Value() == Empty
    {
      this.h := h;
      nIdCount, mapInfo, mapAddr, vRandom := 0, map[], map[], [];
      nTried, vvTried, nNew, vvNew := 0, map[], 0, map[];
      nLastGood, collisions := 1, {};
      new;
      EmptyIsConsistent(h);
    }

    method SwapRandom(i: nat, j: nat)
      requires IndexOk(mapInfo, vRandom) && i < |vRandom| && j < |vRandom|
      modifies this
      ensures Value() == AddrManSpec.SwapRandom(old(Value()), i, j)
    {
      if i == j {
        return;
      }
      var id1, id2 := vRandom[i], vRandom[j];
      assert id1 in mapInfo;
      assert id2 in mapInfo;
      mapInfo := mapInfo[id1 := mapInfo[id1].(nRandomPos := j)];
      mapInfo := mapInfo[id2 := mapInfo[id2].(nRandomPos := i)];
      vRandom := vRandom[i := id2][j := id1];
    }

    method Delete(id: nat)
      requires IndexOk(mapInfo, vRandom) && id in mapInfo
      requires !mapInfo[id].fInTried && mapInfo[id].nRefCount == 0
      modifies this
      ensures Value() == AddrManSpec.Delete(old(Value()), id)
    {
      IndexFinds(mapInfo, vRandom, id);
      var addr := mapInfo[id].service.addr;
      SwapRandom(mapInfo[id].nRandomPos, |vRandom| - 1);
      vRandom := vRandom[..|vRandom| - 1];
      mapAddr := mapAddr - {addr};
      mapInfo := mapInfo - {id};
      nNew := nNew - 1;
    }

    method ClearNew(k: Slot, ghost transit: set<nat>, ghost surplus: int)
      requires InvWith(h, Value(), transit, surplus)
      modifies this
      ensures Value() == AddrManSpec.ClearNew(old(Value()), k)
    {
      hide IndexOk, AddrOk, TriedOk, NewSlotsOk, RefsOk, NewCountOk, TimesOk, AddrManSpec.Delete;
      if k in vvNew {
        ghost var before := Value();
        NewEntryExists(h, Value(), k, transit, surplus);
        var id := vvNew[k];
        assert mapInfo[id].nRefCount > 0 by {
          SlotOwnerHasRefs(mapInfo, vvNew, k);
        }
        mapInfo := mapInfo[id := mapInfo[id].(nRefCount := mapInfo[id].nRefCount - 1)];
        vvNew := vvNew - {k};
        if mapInfo[id].nRefCount == 0 {
          ChangedKeepsIndex(before.mapInfo, mapInfo, id, vRandom);
          NewEntryIsUntried(h, before, k, transit, surplus);
          assert !mapInfo[id].fInTried;
          Delete(id);
        }
      }
    }

    /** Takes an entry out of all its new slots, bucket by bucket. */
    method LeaveAllBuckets(id: nat)
      requires InvWith(h, Value(), {}, 0) && id in mapInfo && !mapInfo[id].fInTried
      modifies this`vvNew, this`mapInfo, this`nNew
      ensures Value() == LeaveNew(old(Value()), id)
    {
      hide AddrOk, TriedOk, NewSlotsOk, NewCountOk, TimesOk, IndexOk;
      var service := mapInfo[id].service;
      RefsAt(mapInfo, vvNew, id);
      BelowRemovedNone(h, vvNew, service, id);
      hide RefsOk, BelowRemoved;
      assert BelowRemoved(h, vvNew, service, id, 0) == vvNew;
      for bucket := 0 to h.newBuckets
        invariant vvNew == BelowRemoved(h, old(vvNew), service, id, bucket)
        invariant id in mapInfo && nNew == old(nNew)
        invariant mapInfo == old(mapInfo)[id := old(mapInfo)[id].(nRefCount := |SlotsOf(vvNew, id)|)]
      {
        var k := h.NewSlotIn(service, bucket);
        if k in vvNew && vvNew[k] == id {
          SlotsAfterDrop(vvNew, k, id);
          vvNew := vvNew - {k};
          mapInfo := mapInfo[id := mapInfo[id].(nRefCount := mapInfo[id].nRefCount - 1)];
        }
        BelowRemovedNext(h, old(vvNew), service, id, bucket);
      }
      nNew := nNew - 1;
      AllRemoved(h, old(Value()), id);
      assert vvNew == WithoutId(old(vvNew), id);
      assert SlotsOf(vvNew, id) == {};
      assert mapInfo[id].nRefCount == 0;
      assert mapInfo == old(mapInfo)[id := old(mapInfo)[id].(nRefCount := 0)];
    }

    method MakeTried(id: nat)
      requires InvWith(h, Value(), {}, 0) && id in mapInfo && !mapInfo[id].fInTried
      modifies this
      ensures Value() == AddrManSpec.MakeTried(h, old(Value()), id)
    {
      hide IndexOk, AddrOk, TriedOk, NewSlotsOk, RefsOk, NewCountOk, TimesOk, LeaveNew, BackToNew;
      ghost var s := Value();
      LeaveNewSpec(h, s, id);
      LeaveNewShape(s, id);
      LeaveAllBuckets(id);
      ghost var a := Value();
      var k := h.TriedSlot(mapInfo[id].service);
      if k in vvTried {
        var idEvict := vvTried[k];
        TriedEntryIsTried(h, a, k);
        assert idEvict in mapInfo;
        mapInfo := mapInfo[idEvict := mapInfo[idEvict].(fInTried := false)];
        vvTried := vvTried - {k};
        nTried := nTried - 1;
        assert Value() == LeaveTried(a, k);
        LeaveTriedSpec(h, a, k, {id}, 0);
        EvictedGoesBack(idEvict, {id} + {idEvict});
      }
      assert k !in vvTried;
      vvTried := vvTried[k := id];
      nTried := nTried + 1;
      mapInfo := mapInfo[id := mapInfo[id].(fInTried := true)];
    }

    method Find(addr: NetAddr) returns (r: Option<nat>)
      ensures r == AddrManSpec.Find(Value(), addr)
    {
      if addr !in mapAddr {
        return None;
      }
      if mapAddr[addr] in mapInfo {
        return Some(mapAddr[addr]);
      }
      return None;
    }

    /** Looks for a bucket holding the entry, starting at a random one and wrapping around. */
    method FindBucket(id: nat, rnd: nat) returns (found: bool)
      requires id in mapInfo && rnd < h.newBuckets
      ensures found == Ops.InSomeBucket(h, Value(), id)
    {
      var service := mapInfo[id].service;
      for n := 0 to h.newBuckets
        invariant forall b | 0 <= b < h.newBuckets && WrapIndex(b, rnd, h.newBuckets) < n ::
                    !Ops.BucketHolds(h, vvNew, service, b, id)
      {
        var b := (n + rnd) % h.newBuckets;
        WrapsTo(n, rnd, h.newBuckets);
        if Ops.BucketHolds(h, vvNew, service, b, id) {
          return true;
        }
      }
      return false;
    }

    method Good(service: Service, testBeforeEvict: bool, nTime: int, rnd: nat)
      requires Valid() && nTime > 0 && rnd < h.newBuckets
      modifies this
      ensures Value() == Ops.Good(h, old(Value()), service, testBeforeEvict, nTime)
      ensures Valid() && Kept(old(Value()), Value())
    {
      hide IndexOk, AddrOk, TriedOk, NewOk, TimesOk, AddrManSpec.MakeTried, Ops.InSomeBucket, Kept;
      Ops.GoodSpec(h, Value(), service, testBeforeEvict, nTime);
      Ops.KeptByCounters(h, Value(), nTime, collisions);
      nLastGood := nTime;
      var f := Find(service.addr);
      if f.None? {
        return;
      }
      var id := f.value;
      if mapInfo[id].service != service {
        return;
      }
      ghost var s1 := Value();
      Ops.TimesAt(s1, id);
      Ops.SetStatsSpec(h, s1, id, Ops.MarkedGood(s1.mapInfo[id], nTime));
      mapInfo := mapInfo[id := mapInfo[id].(nLastSuccess := nTime, nLastTry := nTime, nAttempts := 0)];
      assert Value() == SetInfo(s1, id, Ops.MarkedGood(s1.mapInfo[id], nTime));
      if mapInfo[id].fInTried {
        return;
      }
      var found := FindBucket(id, rnd);
      Ops.UntriedIsInSomeBucket(h, Value(), id);
      assert found;
      var k := h.TriedSlot(service);
      if testBeforeEvict && k in vvTried {
        if |collisions| < SET_TRIED_COLLISION_SIZE {
          collisions := collisions + {id};
        }
      } else {
        MakeTried(id);
      }
    }

    /** Puts an entry into the slot its source selects, if it may. */
    method Place(id: nat, source: NetAddr, now: int)
      requires Ops.Placeable(h, Value(), id)
      modifies this
      ensures Value() == Ops.Place(h, old(Value()), id, source, now)
    {
      hide IndexOk, AddrOk, TriedOk, NewOk, TimesOk, AddrManSpec.ClearNew, AddrManSpec.Delete;
      ghost var s := Value();
      ghost var transit: set<nat> := if InvWith(h, s, {id}, 1) then {id} else {};
      ghost var surplus := if InvWith(h, s, {id}, 1) then 1 else 0;
      assert InvWith(h, s, transit, surplus);
      var k := h.NewSlot(mapInfo[id].service, source);
      if k in vvNew && vvNew[k] == id {
        return;
      }
      var fInsert := k !in vvNew;
      if !fInsert {
        NewEntryExists(h, s, k, transit, surplus);
        var existing := mapInfo[vvNew[k]];
        if Ops.IsTerrible(existing, now) || (existing.nRefCount > 1 && mapInfo[id].nRefCount == 0) {
          fInsert := true;
        }
      }
      assert fInsert == Ops.MayInsert(s, id, k, now);
      if fInsert {
        ClearNewSpec(h, s, k, transit, surplus);
        ClearNew(k, transit, surplus);
        assert SameButPlace(mapInfo[id], s.mapInfo[id]);
        mapInfo := mapInfo[id := mapInfo[id].(nRefCount := mapInfo[id].nRefCount + 1)];
        vvNew := vvNew[k := id];
      } else if mapInfo[id].nRefCount == 0 {
        Delete(id);
      }
    }

    method Create(service: Service, nTime: int, nServices: set<nat>, source: NetAddr) returns (id: nat)
      modifies this
      ensures id == old(nIdCount)
      ensures Value() == AddrManSpec.Create(old(Value()), service, nTime, nServices, source)
    {
      id := nIdCount;
      nIdCount := nIdCount + 1;
      mapInfo := mapInfo[id := NewInfo(service, nTime, nServices, source, |vRandom|)];
      mapAddr := mapAddr[service.addr := id];
      vRandom := vRandom + [id];
    }

    method AddKnown(id: nat, nTime: int, nServices: set<nat>, source: NetAddr, penalty: int, now: int, draw: nat -> nat)
      requires Valid() && id in mapInfo
      modifies this
      ensures Value() == Ops.AddKnown(h, old(Value()), id, nTime, nServices, source, penalty, now, draw)
    {
      hide IndexOk, AddrOk, TriedOk, NewOk, TimesOk, Ops.Place;
      ghost var s := Value();
      var a := Ops.Reannounced(mapInfo[id], nTime, nServices, penalty, now);
      Ops.TimesAt(s, id);
      Ops.SetStatsSpec(h, s, id, a);
      mapInfo := mapInfo[id := a];
      assert Value() == SetInfo(s, id, a);
      if nTime == 0 || (a.nTime != 0 && nTime <= a.nTime) || a.fInTried || a.nRefCount == NEW_BUCKETS_PER_ADDRESS {
        return;
      }
      Ops.RoomForMore(h, Value(), id);
      var nFactor := 1;
      for n := 0 to a.nRefCount
        invariant nFactor == Ops.Pow2(n)
      {
        nFactor := nFactor * 2;
      }
      if nFactor > 1 && draw(nFactor) != 0 {
        return;
      }
      Place(id, source, now);
    }

    method Add(service: Service, nTime: int, nServices: set<nat>, source: NetAddr, nTimePenalty: int,
               now: int, routable: bool, draw: nat -> nat) returns (fNew: bool)
      requires Valid()
      modifies this
      ensures (Value(), fNew) == Ops.Add(h, old(Value()), service, nTime, nServices, source, nTimePenalty, now,
          routable, draw)
      ensures Valid() && Kept(old(Value()), Value())
    {
      hide Inv, InvWith, Kept, Ops.Keeps, Ops.Placeable, Ops.AddKnown, Ops.Place, AddrManSpec.Create;
      InvHasTables(h, Value());
      Ops.AddSpec(h, Value(), service, nTime, nServices, source, nTimePenalty, now, routable, draw);
      KeepsInv(h, Value(), Ops.Add(h, Value(), service, nTime, nServices, source, nTimePenalty, now, routable, draw).0);
      if !routable {
        return false;
      }
      var penalty := if service.addr == source then 0 else nTimePenalty;
      var f := Find(service.addr);
      if f.Some? {
        AddKnown(f.value, nTime, nServices, source, penalty, now, draw);
        return false;
      }
      Ops.CreatedIsPlaceable(h, Value(), service, Max(0, nTime - penalty), nServices, source);
      var id := Create(service, Max(0, nTime - penalty), nServices, source);
      nNew := nNew + 1;
      Place(id, source, now);
      fNew := true;
    }

    method Attempt(service: Service, fCountFailure: bool, nTime: int)
      requires Valid() && nTime > 0
      modifies this
      ensures Value() == Ops.Step(h, old(Value()), Ops.AttemptCall(service, fCountFailure, nTime)) && Valid()
    {
      hide Inv, InvWith, Kept, Ops.Keeps, Ops.Add, Ops.Good, Ops.Collect, Ops.ResolveAll;
      InvHasTables(h, Value());
      Ops.StepSpec(h, Value(), Ops.AttemptCall(service, fCountFailure, nTime));
      KeepsInv(h, Value(), Ops.Step(h, Value(), Ops.AttemptCall(service, fCountFailure, nTime)));
      var f := Find(service.addr);
      if f.Some? && mapInfo[f.value].service == service {
        var info := mapInfo[f.value];
        info := info.(nLastTry := nTime);
        if fCountFailure && info.nLastCountAttempt < nLastGood {
          info := info.(nLastCountAttempt := nTime, nAttempts := info.nAttempts + 1);
        }
        mapInfo := mapInfo[f.value := info];
      }
    }

    method Connected(service: Service, nTime: int)
      requires Valid()
      modifies this
      ensures Value() == Ops.Step(h, old(Value()), Ops.ConnectedCall(service, nTime)) && Valid()
    {
      hide Inv, InvWith, Kept, Ops.Keeps, Ops.Add, Ops.Good, Ops.Collect, Ops.ResolveAll;
      InvHasTables(h, Value());
      Ops.StepSpec(h, Value(), Ops.ConnectedCall(service, nTime));
      KeepsInv(h, Value(), Ops.Step(h, Value(), Ops.ConnectedCall(service, nTime)));
      var f := Find(service.addr);
      if f.Some? && mapInfo[f.value].service == service {
        var info := mapInfo[f.value];
        if nTime - info.nTime > 20 * 60 {
          info := info.(nTime := nTime);
        }
        mapInfo := mapInfo[f.value := info];
      }
    }

    /** A random selection of addresses that are wanted and not terrible, as many as the bounds allow. */
    method GetAddr(maxAddresses: nat, maxPct: nat, wanted: Service -> bool, now: int, draw: nat -> nat)
      returns (ids: seq<nat>, limit: nat)
      requires Valid()
      modifies this
      ensures limit == Ops.NodeLimit(|old(vRandom)|, maxAddresses, maxPct)
      ensures (Value(), ids) == Ops.Collect(old(Value()), 0, limit, wanted, now, draw, [])
      ensures Valid() && Distinct(ids)
      ensures AsSet(ids) <= Ops.EligibleIds(old(mapInfo), wanted, now)
      ensures |ids| == if limit < |Ops.EligibleIds(old(mapInfo), wanted, now)| then limit
                       else |Ops.EligibleIds(old(mapInfo), wanted, now)|
    {
      hide Inv, InvWith, IndexOk, AddrManSpec.SwapRandom, Ops.Keeps, Ops.CollectedOk, Ops.EligibleIds, Ops.Eligible;
      ids := [];
      limit := |vRandom|;
      if maxPct != 0 {
        limit := maxPct * limit / 100;
      }
      if maxAddresses != 0 {
        limit := if limit < maxAddresses then limit else maxAddresses;
      }
      Ops.NothingCollected(vRandom, limit, Ops.EligibleIds(mapInfo, wanted, now));
      InvHasTables(h, Value());
      Ops.CollectSpec(h, Value(), 0, limit, wanted, now, draw, []);
      var n := 0;
      while n < |vRandom| && |ids| < limit
        invariant Valid() && n <= |vRandom|
        invariant Ops.Collect(Value(), n, limit, wanted, now, draw, ids)
            == Ops.Collect(old(Value()), 0, limit, wanted, now, draw, [])
        decreases |vRandom| - n
      {
        var j := Ops.Pick(draw, n, |vRandom|);
        SwapFacts(h, Value(), n, j);
        SwapRandom(n, j);
        var id := vRandom[n];
        if Ops.Eligible(mapInfo[id], wanted, now) {
          ids := ids + [id];
        } else {
          assert ids + [] == ids;
        }
        n := n + 1;
      }
    }

    /** Goes through the recorded collisions, listed by `ids`, in ascending order. */
    method ResolveCollisions(valid: Service -> bool, now: int, rnd: nat) returns (ghost ids: seq<nat>)
      requires Valid() && now > 0 && rnd < h.newBuckets
      modifies this
      ensures Valid() && Kept(old(Value()), Value())
      ensures Value() == Ops.ResolveAll(h, old(Value()), ids, valid, now)
      ensures AsSet(ids) == old(collisions) && (forall i, j | 0 <= i < j < |ids| :: ids[i] < ids[j])
    {
      hide Inv, Kept, Ops.ResolveOne, Ops.IsValid, AsSet;
      AsSetEmpty();
      var todo := collisions;
      ids := [];
      while todo != {}
        invariant todo <= old(collisions)
        invariant Value() == Ops.ResolveAll(h, old(Value()), ids, valid, now)
        invariant AsSet(ids) == old(collisions) - todo
        invariant forall i | 0 <= i < |ids| :: forall id | id in todo :: ids[i] < id
        invariant forall i, j | 0 <= i < j < |ids| :: ids[i] < ids[j]
        decreases |todo|
      {
        var id := Least(todo);
        var ok := Ops.IsValid(Value(), id, valid);
        ResolveFacts(h, old(Value()), ids, id, valid, now);
        ResolveOne(id, ok, now, rnd);
        AsSetAppend(ids, id);
        ids := ids + [id];
        todo := todo - {id};
      }
      ResolveFacts(h, old(Value()), ids, 0, valid, now);
    }

    method ResolveOne(id: nat, valid: bool, now: int, rnd: nat)
      requires Valid() && now > 0 && rnd < h.newBuckets
      modifies this
      ensures Value() == Ops.ResolveOne(h, old(Value()), id, valid, now)
    {
      hide Inv, Kept, Ops.Good;
      var eraseCollision := false;
      if id !in mapInfo {
        eraseCollision := true;
      } else {
        var k := h.TriedSlot(mapInfo[id].service);
        if !valid {
          eraseCollision := true;
        } else if k in vvTried {
          var idOld := vvTried[k];
          TriedEntryExists(h, Value(), k);
          var infoOld := mapInfo[idOld];
          if now - infoOld.nLastSuccess < Ops.REPLACEMENT_HOURS * 60 * 60 {
            eraseCollision := true;
          } else if now - infoOld.nLastTry < Ops.REPLACEMENT_HOURS * 60 * 60 {
            if now - infoOld.nLastTry > 60 {
              Good(mapInfo[id].service, false, now, rnd);
              eraseCollision := true;
            }
          } else if now - mapInfo[id].nLastSuccess > Ops.TEST_WINDOW {
            Good(mapInfo[id].service, false, now, rnd);
            eraseCollision := true;
          }
        } else {
          Good(mapInfo[id].service, false, now, rnd);
          eraseCollision := true;
        }
      }
      if eraseCollision {
        collisions := collisions - {id};
      }
    }

    /** The tried entry some recorded collision would evict; the lookup of its id always succeeds. */
    method SelectTriedCollision(pick: nat) returns (r: Option<AddrInfo>)
      requires Valid() && (collisions != {} ==> pick in collisions)
      modifies this`collisions
      ensures collisions != {} && old(collisions) == collisions && pick in mapInfo
              ==> r.Some? && r.value.fInTried && h.TriedSlot(r.value.service) == h.TriedSlot(mapInfo[pick].service)
      ensures r.None? <==> old(collisions) == {} || pick !in mapInfo
      ensures collisions == if pick in mapInfo then old(collisions) else old(collisions) - {pick}
      ensures Valid()
    {
      if collisions == {} {
        return None;
      }
      if pick !in mapInfo {
        Ops.ForgetSpec(h, Value(), pick);
        collisions := collisions - {pick};
        return None;
      }
      var k := h.TriedSlot(mapInfo[pick].service);
      assert k in vvTried;
      return Some(mapInfo[vvTried[k]]);
    }

    /** Enters an evicted entry into the new table again. */
    method EvictedGoesBack(id: nat, ghost transit: set<nat>)
      requires InvWith(h, Value(), transit, 0) && id in transit
      modifies this
      ensures Value() == BackToNew(h, old(Value()), id)
      ensures vvTried == old(vvTried) && nTried == old(nTried)
      ensures forall x | x in transit :: x in mapInfo
    {
      hide IndexOk, AddrOk, TriedOk, NewSlotsOk, RefsOk, NewCountOk, TimesOk, AddrManSpec.ClearNew;
      ghost var s := Value();
      BackToNewSpec(h, s, id, transit);
      var k := h.NewSlot(mapInfo[id].service, mapInfo[id].source);
      ClearNewSpec(h, s, k, transit, 0);
      NotInTable(h, s, k, id, transit, 0);
      ClearNew(k, transit, 0);
      assert k !in vvNew;
      assert SameButPlace(mapInfo[id], s.mapInfo[id]);
      mapInfo := mapInfo[id := mapInfo[id].(nRefCount := 1)];
      vvNew := vvNew[k := id];
      nNew := nNew + 1;
    }
  }

  lemma InvHasTables(h: Hashing, s: State)
    requires Inv(h, s)
    ensures InvWith(h, s, {}, 0)
  {
  }

  lemma KeepsInv(h: Hashing, s: State, t: State)
    requires Inv(h, s) && Ops.Keeps(h, s, t)
    ensures Inv(h, t) && Kept(s, t)
  {
  }

  /** The least element of a non-empty set, which is what iterating an ordered set yields first. */
  method Least(s: set<nat>) returns (m: nat)
    requires s != {}
    ensures m in s && forall x | x in s :: m <= x
  {
    m :| m in s;
    var rest := s - {m};
    while rest != {}
      invariant m in s && rest <= s
      invariant forall x | x in s && x !in rest :: m <= x
      decreases |rest|
    {
      var x :| x in rest;
      if x < m {
        m := x;
      }
      rest := rest - {x};
    }
  }

  lemma NewEntryIsUntried(h: Hashing, s: State, k: Slot, transit: set<nat>, surplus: int)
    requires NewOk(h, s.mapInfo, s.vvNew, s.nNew, transit, surplus) && k in s.vvNew
    ensures s.vvNew[k] in s.mapInfo && !s.mapInfo[s.vvNew[k]].fInTried
  {
  }

  /** How many steps after a random start the wrapped-around search reaches bucket `b`. */
  function WrapIndex(b: nat, rnd: nat, n: nat): int {
    if b >= rnd then b - rnd else b - rnd + n
  }

  lemma WrapsTo(m: nat, rnd: nat, n: nat)
    requires rnd < n && m < n
    ensures var b := (m + rnd) % n; b < n && forall c: nat | c < n :: WrapIndex(c, rnd, n) == m <==> c == b
  {
    var b := (m + rnd) % n;
    assert b == if m + rnd < n then m + rnd else m + rnd - n by {
      if m + rnd >= n {
        assert (m + rnd - n) % n == m + rnd - n;
        assert (m + rnd) % n == (m + rnd - n + n) % n;
      }
    }
  }

  /** Swapping two places of the random order, for one round of a random selection. */
  lemma SwapFacts(h: Hashing, s: State, n: nat, j: nat)
    requires Inv(h, s) && n < |s.vRandom| && j < |s.vRandom|
    ensures IndexOk(s.mapInfo, s.vRandom)
    ensures var t := AddrManSpec.SwapRandom(s, n, j);
            Inv(h, t) && |t.vRandom| == |s.vRandom| && t.vRandom[n] in t.mapInfo
  {
    hide Inv, InvWith, IndexOk, AddrManSpec.SwapRandom, Kept, Ops.Keeps;
    InvHasTables(h, s);
    Ops.OrderFacts(h, s, n);
    Ops.SwapKept(h, s, n, j);
    var t := AddrManSpec.SwapRandom(s, n, j);
    KeepsInv(h, s, t);
    SwapKeepsIndex(s, n, j);
    OrderMember(t.mapInfo, t.vRandom, n);
  }

  /** One more resolved collision. */
  lemma ResolveFacts(h: Hashing, s: State, ids: seq<nat>, id: nat, valid: Service -> bool, now: int)
    requires Inv(h, s) && now > 0
    ensures var t := Ops.ResolveAll(h, s, ids, valid, now);
            && Inv(h, t) && Kept(s, t)
            && Ops.ResolveAll(h, s, ids + [id], valid, now) == Ops.ResolveOne(h, t, id, Ops.IsValid(t, id, valid), now)
  {
    hide Inv, InvWith, Kept, Ops.Keeps, Ops.ResolveOne;
    InvHasTables(h, s);
    Ops.ResolveAllSpec(h, s, ids, valid, now);
    KeepsInv(h, s, Ops.ResolveAll(h, s, ids, valid, now));
    Ops.ResolveAppend(h, s, ids, id, valid, now);
  }

  lemma OrderMember(m: InfoMap, v: seq<nat>, n: nat)
    requires IndexOk(m, v) && n < |v|
    ensures v[n] in m
  {
  }

  lemma TriedEntryExists(h: Hashing, s: State, k: Slot)
    requires Inv(h, s) && k in s.vvTried
    ensures s.vvTried[k] in s.mapInfo
  {
  }

  lemma RefsAt(m: InfoMap, t: Table, id: nat)
    requires RefsOk(m, t) && id in m
    ensures m[id].nRefCount == |SlotsOf(t, id)|
  {
  }

  lemma LeaveNewShape(s: State, id: nat)
    requires id in s.mapInfo
    ensures var a := LeaveNew(s, id);
            a.mapInfo == s.mapInfo[id := s.mapInfo[id].(nRefCount := 0)] && a.vvTried == s.vvTried
  {
  }

  lemma BelowRemovedNone(h: Hashing, t: Table, service: Service, id: nat)
    ensures BelowRemoved(h, t, service, id, 0) == t
  {
  }

  lemma SlotOwnerHasRefs(m: InfoMap, t: Table, k: Slot)
    requires RefsOk(m, t) && k in t && t[k] in m
    ensures m[t[k]].nRefCount > 0
  {
    assert k in SlotsOf(t, t[k]);
  }

  /** The table without the slots of `id` in the first `n` buckets. */
  function BelowRemoved(h: Hashing, t: Table, service: Service, id: nat, n: nat): Table {
    map k | k in t && !(t[k] == id && k.bucket < n && k == h.NewSlotIn(service, k.bucket)) :: t[k]
  }

  lemma BelowRemovedNext(h: Hashing, t: Table, service: Service, id: nat, n: nat)
    ensures var b, k := BelowRemoved(h, t, service, id, n), h.NewSlotIn(service, n);
            BelowRemoved(h, t, service, id, n + 1) == if k in b && b[k] == id then b - {k} else b
  {
  }

  /** Going through every bucket removes every slot of the entry. */
  lemma AllRemoved(h: Hashing, s: State, id: nat)
    requires InvWith(h, s, {}, 0) && id in s.mapInfo
    ensures BelowRemoved(h, s.vvNew, s.mapInfo[id].service, id, h.newBuckets) == WithoutId(s.vvNew, id)
  {
    hide IndexOk, AddrOk, TriedOk, RefsOk, NewCountOk, TimesOk;
    forall k | k in s.vvNew && s.vvNew[k] == id
      ensures k.bucket < h.newBuckets && k == h.NewSlotIn(s.mapInfo[id].service, k.bucket)
    {
    }
  }
}
