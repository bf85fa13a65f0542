/**
 The calls of the address manager, as functions on `AddrManSpec` states, and the proof that every run of
 them keeps the tables consistent.
 */
module AddrManOps {
  import opened Arithmetic
  import opened Options
  import opened AddrManSpec
  import opened Sets

  const HORIZON_DAYS := 30
  const RETRIES := 3
  const MAX_FAILURES := 10
  const MIN_FAIL_DAYS := 7
  const REPLACEMENT_HOURS := 4
  const TEST_WINDOW := 40 * 60

  predicate IsTerrible(a: AddrInfo, now: int) {
    if a.nLastTry != 0 && a.nLastTry >= now - 60 then false
    else
      || a.nTime > now + 10 * 60
      || a.nTime == 0 || now - a.nTime > HORIZON_DAYS * 24 * 60 * 60
      || (a.nLastSuccess == 0 && a.nAttempts >= RETRIES)
      || (now - a.nLastSuccess > MIN_FAIL_DAYS * 24 * 60 * 60 && a.nAttempts >= MAX_FAILURES)
  }

  function Pow2(n: nat): (r: nat)
    ensures r > n
  {
    if n == 0 then 1 else 2 * Pow2(n - 1)
  }

  // ----- the calls -----

  predicate BucketHolds(h: Hashing, t: Table, service: Service, b: nat, id: nat) {
    h.NewSlotIn(service, b) in t && t[h.NewSlotIn(service, b)] == id
  }

  /** Whether some new bucket holds the entry; the code gives up when none does. */
  predicate InSomeBucket(h: Hashing, s: State, id: nat)
    requires id in s.mapInfo
  {
    exists b | 0 <= b < h.newBuckets :: BucketHolds(h, s.vvNew, s.mapInfo[id].service, b, id)
  }

  function MarkedGood(a: AddrInfo, nTime: int): AddrInfo {
    a.(nLastSuccess := nTime, nLastTry := nTime, nAttempts := 0)
  }

  function Good(h: Hashing, s0: State, service: Service, testBeforeEvict: bool, nTime: int): State {
    var s := s0.(nLastGood := nTime);
    match Find(s, service.addr)
    case None => s
    case Some(id) =>
      if s.mapInfo[id].service != service then s
      else
        var t := SetInfo(s, id, MarkedGood(s.mapInfo[id], nTime));
        if t.mapInfo[id].fInTried || !InSomeBucket(h, t, id) then t
        else if testBeforeEvict && h.TriedSlot(service) in t.vvTried then
          if |t.collisions| < SET_TRIED_COLLISION_SIZE then t.(collisions := t.collisions + {id}) else t
        else MakeTried(h, t, id)
  }

  /** Puts an entry into the new bucket its source selects, or drops a newcomer that finds no room. */
  function Place(h: Hashing, s: State, id: nat, source: NetAddr, now: int): State
    requires id in s.mapInfo
  {
    var k := h.NewSlot(s.mapInfo[id].service, source);
    if k in s.vvNew && s.vvNew[k] == id then s
    else if MayInsert(s, id, k, now) then
      var c := ClearNew(s, k);
      if id in c.mapInfo then Take(c, id, k) else c
    else if s.mapInfo[id].nRefCount == 0 then Delete(s, id)
    else s
  }

  predicate MayInsert(s: State, id: nat, k: Slot, now: int)
    requires id in s.mapInfo
  {
    || k !in s.vvNew
    || s.vvNew[k] !in s.mapInfo
    || IsTerrible(s.mapInfo[s.vvNew[k]], now)
    || (s.mapInfo[s.vvNew[k]].nRefCount > 1 && s.mapInfo[id].nRefCount == 0)
  }

  /** The refreshed time and services of an entry that is announced again. */
  function Reannounced(a: AddrInfo, nTime: int, nServices: set<nat>, penalty: int, now: int): AddrInfo {
    var interval := if now - nTime < 24 * 60 * 60 then 60 * 60 else 24 * 60 * 60;
    var t := if nTime != 0 && (a.nTime == 0 || a.nTime < nTime - interval - penalty) then Max(0, nTime - penalty)
        else a.nTime;
    a.(nTime := t, nServices := a.nServices + nServices)
  }

  /** An announcement of a known address refreshes it and may add it to one more bucket. */
  function AddKnown(h: Hashing, s: State, id: nat, nTime: int, nServices: set<nat>, source: NetAddr,
                    penalty: int, now: int, draw: nat -> nat): State
    requires id in s.mapInfo
  {
    var a := Reannounced(s.mapInfo[id], nTime, nServices, penalty, now);
    var t := SetInfo(s, id, a);
    if nTime == 0 || (a.nTime != 0 && nTime <= a.nTime) || a.fInTried
       || a.nRefCount == NEW_BUCKETS_PER_ADDRESS
       || (a.nRefCount > 0 && draw(Pow2(a.nRefCount)) != 0)
    then t
    else Place(h, t, id, source, now)
  }

  function AddUnknown(h: Hashing, s: State, service: Service, nTime: int, nServices: set<nat>, source: NetAddr,
                      penalty: int, now: int): State
  {
    var t := Create(s, service, Max(0, nTime - penalty), nServices, source);
    Place(h, t.(nNew := t.nNew + 1), s.nIdCount, source, now)
  }

  /** `draw(n)` is a random number below `n`. */
  function Add(h: Hashing, s: State, service: Service, nTime: int, nServices: set<nat>, source: NetAddr,
               nTimePenalty: int, now: int, routable: bool, draw: nat -> nat): (State, bool)
  {
    if !routable then (s, false)
    else
      var penalty := if service.addr == source then 0 else nTimePenalty;
      match Find(s, service.addr)
      case Some(id) => (AddKnown(h, s, id, nTime, nServices, source, penalty, now, draw), false)
      case None => (AddUnknown(h, s, service, nTime, nServices, source, penalty, now), true)
  }

  function Attempted(a: AddrInfo, fCountFailure: bool, nTime: int, nLastGood: int): AddrInfo {
    if fCountFailure && a.nLastCountAttempt < nLastGood
    then a.(nLastTry := nTime, nLastCountAttempt := nTime, nAttempts := a.nAttempts + 1)
    else a.(nLastTry := nTime)
  }

  function Connected(a: AddrInfo, nTime: int): AddrInfo {
    if nTime - a.nTime > 20 * 60 then a.(nTime := nTime) else a
  }

  /** Applies a change of statistics to the entry for exactly this service, if there is one. */
  function OnEntry(s: State, service: Service, change: AddrInfo -> AddrInfo): State {
    match Find(s, service.addr)
    case None => s
    case Some(id) => if s.mapInfo[id].service != service then s else SetInfo(s, id, change(s.mapInfo[id]))
  }

  /** What to do about one recorded collision: leave it, forget it, or make the new entry tried and forget it. */
  datatype Verdict = Wait | Forget | Replace

  function Judge(h: Hashing, s: State, id: nat, valid: bool, now: int): Verdict {
    if id !in s.mapInfo then Forget
    else
      var k := h.TriedSlot(s.mapInfo[id].service);
      if !valid then Forget
      else if k in s.vvTried && s.vvTried[k] in s.mapInfo then
        var incumbent := s.mapInfo[s.vvTried[k]];
        if now - incumbent.nLastSuccess < REPLACEMENT_HOURS * 60 * 60 then Forget
        else if now - incumbent.nLastTry < REPLACEMENT_HOURS * 60 * 60 then
          if now - incumbent.nLastTry > 60 then Replace else Wait
        else if now - s.mapInfo[id].nLastSuccess > TEST_WINDOW then Replace
        else Wait
      else Replace
  }

  function ResolveOne(h: Hashing, s: State, id: nat, valid: bool, now: int): State {
    match Judge(h, s, id, valid, now)
    case Wait => s
    case Forget => s.(collisions := s.collisions - {id})
    case Replace =>
      if id !in s.mapInfo then s
      else
        var t := Good(h, s, s.mapInfo[id].service, false, now);
        t.(collisions := t.collisions - {id})
  }

  function IsValid(s: State, id: nat, valid: Service -> bool): bool {
    id in s.mapInfo && valid(s.mapInfo[id].service)
  }

  /** Goes through a list of recorded collisions. */
  function ResolveAll(h: Hashing, s: State, ids: seq<nat>, valid: Service -> bool, now: int): State
    decreases |ids|
  {
    if ids == [] then s
    else ResolveAll(h, ResolveOne(h, s, ids[0], IsValid(s, ids[0], valid), now), ids[1..], valid, now)
  }

  // ----- what each call keeps -----

  /** A call keeps the tables consistent, empties no tried slot, and keeps the collisions sound if they were. */
  ghost predicate Keeps(h: Hashing, s: State, t: State) {
    InvWith(h, t, {}, 0) && Kept(s, t) && (Inv(h, s) ==> Inv(h, t))
  }

  lemma SameCollisionsKeep(h: Hashing, s: State, t: State)
    requires InvWith(h, t, {}, 0) && Kept(s, t) && t.collisions == s.collisions
    ensures Keeps(h, s, t)
  {
    hide IndexOk, AddrOk, TriedOk, NewOk, TimesOk;
    if Inv(h, s) {
      KeptKeepsCollisions(h, s, t, s.collisions);
    }
  }

  lemma KeepsItself(h: Hashing, s: State)
    requires InvWith(h, s, {}, 0)
    ensures Keeps(h, s, s)
  {
    hide IndexOk, AddrOk, TriedOk, NewOk, TimesOk, CollisionsOk;
  }

  lemma KeepsTransitive(h: Hashing, a: State, b: State, c: State)
    requires InvWith(h, a, {}, 0) && Keeps(h, a, b) && Keeps(h, b, c)
    ensures Keeps(h, a, c)
  {
    hide IndexOk, AddrOk, TriedOk, NewOk, TimesOk, CollisionsOk;
    IdsAreOld(a);
    KeptTransitive(a, b, c);
  }

  lemma FindSpec(h: Hashing, s: State, a: NetAddr)
    requires InvWith(h, s, {}, 0)
    ensures Find(s, a).None? <==> a !in s.mapAddr
    ensures Find(s, a).Some? ==> Find(s, a).value in s.mapInfo && s.mapInfo[Find(s, a).value].service.addr == a
    ensures forall id | id in s.mapInfo :: Find(s, s.mapInfo[id].service.addr) == Some(id)
  {
  }

  /** The "no bucket is found" exit is never taken: an untried entry is in some new bucket. */
  lemma UntriedIsInSomeBucket(h: Hashing, s: State, id: nat)
    requires InvWith(h, s, {}, 0) && id in s.mapInfo && !s.mapInfo[id].fInTried
    ensures InSomeBucket(h, s, id)
  {
    assert id in NewIds(s.mapInfo, {});
    assert |SlotsOf(s.vvNew, id)| > 0;
    var k :| k in SlotsOf(s.vvNew, id);
    assert BucketHolds(h, s.vvNew, s.mapInfo[id].service, k.bucket, id);
  }

  /** Changing the statistics of one entry, with sound times, keeps everything. */
  lemma SetStatsSpec(h: Hashing, s: State, id: nat, a: AddrInfo)
    requires InvWith(h, s, {}, 0) && id in s.mapInfo
    requires a.service == s.mapInfo[id].service && a.nRefCount == s.mapInfo[id].nRefCount
    requires a.fInTried == s.mapInfo[id].fInTried && a.nRandomPos == s.mapInfo[id].nRandomPos
    requires a.nLastTry >= 0 && a.nLastSuccess >= 0 && (a.fInTried ==> a.nLastSuccess > 0)
    ensures InvWith(h, SetInfo(s, id, a), {}, 0) && Kept(s, SetInfo(s, id, a))
  {
    hide IndexOk, AddrOk, TriedOk, NewOk, TimesOk;
    var n := s.mapInfo[id := a];
    ChangedKeepsIndex(s.mapInfo, n, id, s.vRandom);
    ChangedKeepsTimes(s.mapInfo, n, id);
    ShapeKeepsInv(h, s, n, s.vRandom, {}, 0);
  }

  lemma KeptTransitive(a: State, b: State, c: State)
    requires Kept(a, b) && Kept(b, c) && (forall x | x in a.mapInfo :: x < a.nIdCount)
    ensures Kept(a, c)
  {
  }

  lemma KeptByCounters(h: Hashing, s: State, nLastGood: int, collisions: set<nat>)
    requires InvWith(h, s, {}, 0)
    ensures InvWith(h, s.(nLastGood := nLastGood, collisions := collisions), {}, 0)
    ensures Kept(s, s.(nLastGood := nLastGood, collisions := collisions))
  {
    hide IndexOk, AddrOk, TriedOk, NewOk, TimesOk;
  }

  lemma GoodSpec(h: Hashing, s: State, service: Service, testBeforeEvict: bool, nTime: int)
    requires InvWith(h, s, {}, 0) && nTime > 0
    ensures Keeps(h, s, Good(h, s, service, testBeforeEvict, nTime))
  {
    hide IndexOk, AddrOk, TriedOk, NewOk, TimesOk, MakeTried, InSomeBucket, Keeps, CollisionsOk;
    var s1 := s.(nLastGood := nTime);
    KeptByCounters(h, s, nTime, s.collisions);
    SameCollisionsKeep(h, s, s1);
    var f := Find(s1, service.addr);
    if f.Some? && s1.mapInfo[f.value].service == service {
      var id := f.value;
      TimesAt(s1, id);
      SetStatsSpec(h, s1, id, MarkedGood(s1.mapInfo[id], nTime));
      var t := SetInfo(s1, id, MarkedGood(s1.mapInfo[id], nTime));
      SameCollisionsKeep(h, s1, t);
      KeepsTransitive(h, s, s1, t);
      if !t.mapInfo[id].fInTried {
        UntriedIsInSomeBucket(h, t, id);
        if testBeforeEvict && h.TriedSlot(service) in t.vvTried {
          if |t.collisions| < SET_TRIED_COLLISION_SIZE {
            NoteSpec(h, t, id);
            KeepsTransitive(h, s, t, t.(collisions := t.collisions + {id}));
          }
        } else {
          MakeTriedSpec(h, t, id);
          SameCollisionsKeep(h, t, MakeTried(h, t, id));
          KeepsTransitive(h, s, t, MakeTried(h, t, id));
        }
      }
    }
  }

  lemma NoteSpec(h: Hashing, s: State, id: nat)
    requires InvWith(h, s, {}, 0) && id in s.mapInfo && h.TriedSlot(s.mapInfo[id].service) in s.vvTried
    requires |s.collisions| < SET_TRIED_COLLISION_SIZE
    ensures Keeps(h, s, s.(collisions := s.collisions + {id}))
  {
    hide IndexOk, AddrOk, TriedOk, NewOk, TimesOk;
    KeptByCounters(h, s, s.nLastGood, s.collisions + {id});
    IdsAreOld(s);
  }

  lemma TimesAt(s: State, id: nat)
    requires TimesOk(s.mapInfo) && id in s.mapInfo
    ensures s.mapInfo[id].nLastTry >= 0 && s.mapInfo[id].nLastSuccess >= 0
    ensures s.mapInfo[id].fInTried ==> s.mapInfo[id].nLastSuccess > 0
  {
  }

  lemma IdsAreOld(s: State)
    requires AddrOk(s.mapInfo, s.mapAddr, s.nIdCount)
    ensures forall id | id in s.mapInfo :: id < s.nIdCount
  {
  }

  /** The two situations in which an entry looks for a new slot: a newcomer, or one with room for more. */
  ghost predicate Placeable(h: Hashing, s: State, id: nat) {
    && id in s.mapInfo && !s.mapInfo[id].fInTried
    && (InvWith(h, s, {id}, 1)
        || (InvWith(h, s, {}, 0) && 1 <= s.mapInfo[id].nRefCount < NEW_BUCKETS_PER_ADDRESS))
  }

  lemma PlaceSpec(h: Hashing, s: State, id: nat, source: NetAddr, now: int)
    requires Placeable(h, s, id)
    ensures InvWith(h, Place(h, s, id, source, now), {}, 0)
    ensures Kept(s, Place(h, s, id, source, now))
  {
    hide IndexOk, AddrOk, TriedOk, NewOk, TimesOk, ClearNew, Delete;
    var newcomer := InvWith(h, s, {id}, 1);
    var transit := if newcomer then {id} else {};
    var surplus := if newcomer then 1 else 0;
    assert InvWith(h, s, transit, surplus);
    var k := h.NewSlot(s.mapInfo[id].service, source);
    NewSlotInRange(h, s.mapInfo[id].service, source);
    if newcomer {
      NotInTable(h, s, k, id, transit, surplus);
    }
    if k in s.vvNew && s.vvNew[k] == id {
    } else if MayInsert(s, id, k, now) {
      ClearNewSpec(h, s, k, transit, surplus);
      var c := ClearNew(s, k);
      assert SameButPlace(c.mapInfo[id], s.mapInfo[id]);
      TakeSpec(h, c, id, k, transit, surplus);
      assert transit - {id} == {};
    } else if s.mapInfo[id].nRefCount == 0 {
      DeleteSpec(h, s, id, {id}, 1);
      DeleteTouches(s, id);
      assert {id} - {id} == {};
    }
  }

  lemma DeleteTouches(s: State, id: nat)
    requires IndexOk(s.mapInfo, s.vRandom) && id in s.mapInfo
    ensures var t := Delete(s, id);
            t == s.(mapInfo := t.mapInfo, vRandom := t.vRandom, mapAddr := t.mapAddr, nNew := t.nNew)
  {
    DeleteKeepsIndex(s, id);
  }

  lemma CreatedIsPlaceable(h: Hashing, s: State, service: Service, nTime: int, nServices: set<nat>, source: NetAddr)
    requires InvWith(h, s, {}, 0) && Find(s, service.addr).None?
    ensures var t := Create(s, service, nTime, nServices, source);
            Placeable(h, t.(nNew := t.nNew + 1), s.nIdCount) && Kept(s, t)
  {
    hide IndexOk, AddrOk, TriedOk, NewOk, TimesOk;
    CreateSpec(h, s, service, nTime, nServices, source);
    SurplusIsCounted(h, Create(s, service, nTime, nServices, source), {s.nIdCount}, 0, 1);
    IdsAreOld(s);
  }

  lemma AddKnownSpec(h: Hashing, s: State, id: nat, nTime: int, nServices: set<nat>, source: NetAddr,
                     penalty: int, now: int, draw: nat -> nat)
    requires InvWith(h, s, {}, 0) && id in s.mapInfo
    ensures var r := AddKnown(h, s, id, nTime, nServices, source, penalty, now, draw);
            InvWith(h, r, {}, 0) && Kept(s, r) && r.collisions == s.collisions
  {
    hide IndexOk, AddrOk, TriedOk, NewOk, TimesOk, Place;
    IdsAreOld(s);
    TimesAt(s, id);
    var a := Reannounced(s.mapInfo[id], nTime, nServices, penalty, now);
    SetStatsSpec(h, s, id, a);
    var t := SetInfo(s, id, a);
    PlaceKeepsCollisions(h, t, id, source, now);
    if AddKnown(h, s, id, nTime, nServices, source, penalty, now, draw) != t {
      RoomForMore(h, t, id);
      PlaceSpec(h, t, id, source, now);
      KeptTransitive(s, t, Place(h, t, id, source, now));
    }
  }

  lemma AddUnknownSpec(h: Hashing, s: State, service: Service, nTime: int, nServices: set<nat>, source: NetAddr,
                       penalty: int, now: int)
    requires InvWith(h, s, {}, 0) && Find(s, service.addr).None?
    ensures var r := AddUnknown(h, s, service, nTime, nServices, source, penalty, now);
            InvWith(h, r, {}, 0) && Kept(s, r) && r.collisions == s.collisions
  {
    hide IndexOk, AddrOk, TriedOk, NewOk, TimesOk, Place;
    IdsAreOld(s);
    var t := Create(s, service, Max(0, nTime - penalty), nServices, source);
    CreatedIsPlaceable(h, s, service, Max(0, nTime - penalty), nServices, source);
    PlaceSpec(h, t.(nNew := t.nNew + 1), s.nIdCount, source, now);
    PlaceKeepsCollisions(h, t.(nNew := t.nNew + 1), s.nIdCount, source, now);
    KeptTransitive(s, t.(nNew := t.nNew + 1), Place(h, t.(nNew := t.nNew + 1), s.nIdCount, source, now));
  }

  /** Adding keeps the tables consistent, and reports true exactly for a routable address not yet known. */
  lemma AddSpec(h: Hashing, s: State, service: Service, nTime: int, nServices: set<nat>, source: NetAddr,
                nTimePenalty: int, now: int, routable: bool, draw: nat -> nat)
    requires InvWith(h, s, {}, 0)
    ensures var r := Add(h, s, service, nTime, nServices, source, nTimePenalty, now, routable, draw);
            && Keeps(h, s, r.0)
            && (r.1 <==> routable && service.addr !in s.mapAddr)
  {
    FindSpec(h, s, service.addr);
    KeepsItself(h, s);
    hide IndexOk, AddrOk, TriedOk, NewOk, TimesOk, AddKnown, AddUnknown, Keeps;
    var r := Add(h, s, service, nTime, nServices, source, nTimePenalty, now, routable, draw);
    var penalty := if service.addr == source then 0 else nTimePenalty;
    if routable {
      match Find(s, service.addr) {
        case Some(id) => AddKnownSpec(h, s, id, nTime, nServices, source, penalty, now, draw);
        case None => AddUnknownSpec(h, s, service, nTime, nServices, source, penalty, now);
      }
      SameCollisionsKeep(h, s, r.0);
    }
  }

  lemma RoomForMore(h: Hashing, s: State, id: nat)
    requires InvWith(h, s, {}, 0) && id in s.mapInfo && !s.mapInfo[id].fInTried
    ensures 1 <= s.mapInfo[id].nRefCount <= NEW_BUCKETS_PER_ADDRESS
  {
    assert id in NewIds(s.mapInfo, {});
  }

  lemma PlaceKeepsCollisions(h: Hashing, s: State, id: nat, source: NetAddr, now: int)
    requires id in s.mapInfo
    ensures Place(h, s, id, source, now).collisions == s.collisions
  {
  }

  /** A change of statistics that leaves the shape alone and keeps times sound. */
  ghost predicate SoundChange(change: AddrInfo -> AddrInfo) {
    forall a: AddrInfo ::
      var b := change(a);
      && b.service == a.service && b.nRefCount == a.nRefCount && b.fInTried == a.fInTried
          && b.nRandomPos == a.nRandomPos
      && (a.nLastTry >= 0 ==> b.nLastTry >= 0) && b.nLastSuccess == a.nLastSuccess
  }

  lemma OnEntrySpec(h: Hashing, s: State, service: Service, change: AddrInfo -> AddrInfo)
    requires InvWith(h, s, {}, 0) && SoundChange(change)
    ensures Keeps(h, s, OnEntry(s, service, change))
  {
    hide IndexOk, AddrOk, TriedOk, NewOk, TimesOk, Keeps;
    KeepsItself(h, s);
    match Find(s, service.addr) {
      case None =>
      case Some(id) =>
        if s.mapInfo[id].service == service {
          TimesAt(s, id);
          SetStatsSpec(h, s, id, change(s.mapInfo[id]));
          SameCollisionsKeep(h, s, SetInfo(s, id, change(s.mapInfo[id])));
        }
    }
  }

  lemma ForgetSpec(h: Hashing, s: State, id: nat)
    requires InvWith(h, s, {}, 0)
    ensures Keeps(h, s, s.(collisions := s.collisions - {id}))
  {
    hide IndexOk, AddrOk, TriedOk, NewOk, TimesOk;
    KeptByCounters(h, s, s.nLastGood, s.collisions - {id});
    SubsetSize(s.collisions - {id}, s.collisions);
  }

  lemma ResolveOneSpec(h: Hashing, s: State, id: nat, valid: bool, now: int)
    requires InvWith(h, s, {}, 0) && now > 0
    ensures Keeps(h, s, ResolveOne(h, s, id, valid, now))
  {
    KeepsItself(h, s);
    ForgetSpec(h, s, id);
    if id in s.mapInfo {
      var t := Good(h, s, s.mapInfo[id].service, false, now);
      GoodSpec(h, s, s.mapInfo[id].service, false, now);
      hide InvWith, Inv, Kept, Good, Judge;
      ForgetSpec(h, t, id);
      KeepsTransitive(h, s, t, t.(collisions := t.collisions - {id}));
    }
  }

  lemma {:induction false} ResolveAllSpec(h: Hashing, s: State, ids: seq<nat>, valid: Service -> bool, now: int)
    requires InvWith(h, s, {}, 0) && now > 0
    ensures Keeps(h, s, ResolveAll(h, s, ids, valid, now))
    decreases |ids|
  {
    hide InvWith, Inv, Kept, ResolveOne;
    if ids == [] {
      KeepsItself(h, s);
    } else {
      ResolveOneSpec(h, s, ids[0], IsValid(s, ids[0], valid), now);
      var t := ResolveOne(h, s, ids[0], IsValid(s, ids[0], valid), now);
      ResolveAllSpec(h, t, ids[1..], valid, now);
      KeepsTransitive(h, s, t, ResolveAll(h, t, ids[1..], valid, now));
    }
  }

  lemma {:induction false} ResolveAppend(h: Hashing, s: State, ids: seq<nat>, id: nat, valid: Service -> bool, now: int)
    ensures var t := ResolveAll(h, s, ids, valid, now);
            ResolveAll(h, s, ids + [id], valid, now) == ResolveOne(h, t, id, IsValid(t, id, valid), now)
    decreases |ids|
  {
    if ids != [] {
      assert (ids + [id])[1..] == ids[1..] + [id];
      ResolveAppend(h, ResolveOne(h, s, ids[0], IsValid(s, ids[0], valid), now), ids[1..], id, valid, now);
    }
  }

  // ----- what a success report achieves -----

  /**
   Reporting success for a known service makes its entry tried, unless it collides and the caller asked
   to test before evicting: then the tables stay as they are and the collision is noted if there is room.
   */
  lemma GoodAchieves(h: Hashing, s: State, id: nat, testBeforeEvict: bool, nTime: int)
    requires Inv(h, s) && nTime > 0 && id in s.mapInfo
    ensures var service := s.mapInfo[id].service;
            var t, k := Good(h, s, service, testBeforeEvict, nTime), h.TriedSlot(service);
            && id in t.mapInfo && t.mapInfo[id].nLastSuccess == nTime && t.mapInfo[id].nAttempts == 0
            && (testBeforeEvict && !s.mapInfo[id].fInTried && k in s.vvTried ==>
                  && !t.mapInfo[id].fInTried && t.vvTried == s.vvTried && t.vvNew == s.vvNew
                  && t.collisions == if |s.collisions| < SET_TRIED_COLLISION_SIZE then s.collisions + {id}
                      else s.collisions)
            && (!(testBeforeEvict && !s.mapInfo[id].fInTried && k in s.vvTried) ==>
                  t.mapInfo[id].fInTried && t.vvTried == s.vvTried[k := id] && t.collisions == s.collisions)
  {
    hide IndexOk, AddrOk, TriedOk, NewOk, TimesOk, MakeTried, InSomeBucket;
    FindSpec(h, s, s.mapInfo[id].service.addr);
    if s.mapInfo[id].fInTried {
      TriedAtItsSlot(h, s, id);
    }
    TimesAt(s, id);
    KeptByCounters(h, s, nTime, s.collisions);
    var s1 := s.(nLastGood := nTime);
    var t := SetInfo(s1, id, MarkedGood(s1.mapInfo[id], nTime));
    SetStatsSpec(h, s1, id, MarkedGood(s1.mapInfo[id], nTime));
    if !t.mapInfo[id].fInTried {
      UntriedIsInSomeBucket(h, t, id);
      MakeTriedSpec(h, t, id);
    }
  }

  lemma TriedAtItsSlot(h: Hashing, s: State, id: nat)
    requires Inv(h, s) && id in s.mapInfo && s.mapInfo[id].fInTried
    ensures s.vvTried[h.TriedSlot(s.mapInfo[id].service) := id] == s.vvTried
  {
  }

  /** An announced address ends up in the bucket slot its source selects whenever it may take that slot. */
  lemma PlaceAchieves(h: Hashing, s: State, id: nat, source: NetAddr, now: int)
    requires Placeable(h, s, id)
    ensures var t, k := Place(h, s, id, source, now), h.NewSlot(s.mapInfo[id].service, source);
            && (MayInsert(s, id, k, now) ==> t.vvNew == s.vvNew[k := id] && id in t.mapInfo)
            && (!MayInsert(s, id, k, now) ==> t.vvNew == s.vvNew)
            && (id in t.mapInfo <==> MayInsert(s, id, k, now) || s.mapInfo[id].nRefCount > 0)
  {
    hide IndexOk, AddrOk, TriedOk, NewOk, TimesOk, ClearNew, Delete;
    var newcomer := InvWith(h, s, {id}, 1);
    var transit := if newcomer then {id} else {};
    var surplus := if newcomer then 1 else 0;
    assert InvWith(h, s, transit, surplus);
    var k := h.NewSlot(s.mapInfo[id].service, source);
    if newcomer {
      NotInTable(h, s, k, id, transit, surplus);
    }
    if k in s.vvNew && s.vvNew[k] == id {
      assert s.vvNew[k := id] == s.vvNew;
    } else if MayInsert(s, id, k, now) {
      ClearNewSpec(h, s, k, transit, surplus);
      assert (s.vvNew - {k})[k := id] == s.vvNew[k := id];
    } else if s.mapInfo[id].nRefCount == 0 {
      DeleteSpec(h, s, id, {id}, 1);
      DeleteTouches(s, id);
    }
  }

  // ----- random lists -----

  /** A wanted network and not terrible. */
  predicate Eligible(a: AddrInfo, wanted: Service -> bool, now: int) {
    wanted(a.service) && !IsTerrible(a, now)
  }

  ghost function EligibleIds(m: InfoMap, wanted: Service -> bool, now: int): set<nat> {
    set id | id in m && Eligible(m[id], wanted, now)
  }

  /** A random place from `n` on. */
  function Pick(draw: nat -> nat, n: nat, size: nat): (r: nat)
    requires n < size
    ensures n <= r < size
  {
    n + draw(size - n) % (size - n)
  }

  /** How many addresses to give out: a share of all of them, and no more than asked for; 0 means no bound. */
  function NodeLimit(size: nat, maxAddresses: nat, maxPct: nat): nat {
    var share := if maxPct != 0 then maxPct * size / 100 else size;
    if maxAddresses != 0 && maxAddresses < share then maxAddresses else share
  }

  /** One pass over the random order from place `n`, shuffling as it goes and collecting eligible ids. */
  function Collect(s: State, n: nat, limit: nat, wanted: Service -> bool, now: int, draw: nat -> nat,
          acc: seq<nat>): (State, seq<nat>)
    decreases |s.vRandom| - n
  {
    if n >= |s.vRandom| || |acc| >= limit then (s, acc)
    else
      var t := SwapRandom(s, n, Pick(draw, n, |s.vRandom|));
      var id := t.vRandom[n];
      var more := if id in t.mapInfo && Eligible(t.mapInfo[id], wanted, now) then [id] else [];
      Collect(t, n + 1, limit, wanted, now, draw, acc + more)
  }

  /** What has been collected so far: the eligible ids among the first `n` places, each once. */
  ghost predicate CollectedOk(v: seq<nat>, n: nat, limit: nat, eligible: set<nat>, acc: seq<nat>) {
    n <= |v| && |acc| <= limit && Distinct(acc) && AsSet(acc) == Firsts(v, n) * eligible
  }

  lemma CollectStep(v: seq<nat>, n: nat, limit: nat, eligible: set<nat>, acc: seq<nat>)
    requires CollectedOk(v, n, limit, eligible, acc) && n < |v| && |acc| < limit
    requires v[n] !in Firsts(v, n)
    ensures CollectedOk(v, n + 1, limit, eligible, acc + if v[n] in eligible then [v[n]] else [])
  {
    var id := v[n];
    assert Firsts(v, n + 1) == Firsts(v, n) + {id};
    assert id !in AsSet(acc);
    if id in eligible {
      assert AsSet(acc + [id]) == AsSet(acc) + {id};
      assert (Firsts(v, n) + {id}) * eligible == Firsts(v, n) * eligible + {id};
    } else {
      assert acc + [] == acc;
      assert (Firsts(v, n) + {id}) * eligible == Firsts(v, n) * eligible;
    }
  }

  lemma CollectEnd(v: seq<nat>, n: nat, limit: nat, eligible: set<nat>, acc: seq<nat>)
    requires CollectedOk(v, n, limit, eligible, acc) && (n >= |v| || |acc| >= limit)
    requires eligible <= Firsts(v, |v|)
    ensures AsSet(acc) <= eligible
    ensures |acc| == if limit < |eligible| then limit else |eligible|
  {
    DistinctSize(acc);
    SubsetSize(AsSet(acc), eligible);
    if n >= |v| {
      assert AsSet(acc) == eligible;
    }
  }

  /** A swap at or beyond place `n` changes neither the places before it nor who is eligible. */
  lemma SwapBeyond(s: State, n: nat, j: nat, wanted: Service -> bool, now: int)
    requires IndexOk(s.mapInfo, s.vRandom) && n <= j < |s.vRandom|
    ensures var t := SwapRandom(s, n, j);
            && |t.vRandom| == |s.vRandom| && Firsts(t.vRandom, n) == Firsts(s.vRandom, n)
            && EligibleIds(t.mapInfo, wanted, now) == EligibleIds(s.mapInfo, wanted, now)
            && (t.vRandom[n] in EligibleIds(s.mapInfo, wanted, now)
                <==> t.vRandom[n] in t.mapInfo && Eligible(t.mapInfo[t.vRandom[n]], wanted, now))
  {
    hide SwapRandom, IndexOk;
    SwapKeepsIndex(s, n, j);
    var t := SwapRandom(s, n, j);
    assert forall i | 0 <= i < n :: t.vRandom[i] == s.vRandom[i];
    forall id | id in s.mapInfo ensures Eligible(t.mapInfo[id], wanted, now) == Eligible(s.mapInfo[id], wanted, now) {
      assert SameButPlace(t.mapInfo[id], s.mapInfo[id]);
    }
  }

  lemma SwapKept(h: Hashing, s: State, n: nat, j: nat)
    requires InvWith(h, s, {}, 0) && n < |s.vRandom| && j < |s.vRandom|
    ensures Keeps(h, s, SwapRandom(s, n, j))
  {
    hide IndexOk, AddrOk, TriedOk, NewOk, TimesOk, SwapRandom, Keeps;
    SwapRandomSpec(h, s, n, j, {}, 0);
    SwapKeepsIndex(s, n, j);
    var t := SwapRandom(s, n, j);
    forall id | id in s.mapInfo ensures t.mapInfo[id].service == s.mapInfo[id].service {
      assert SameButPlace(t.mapInfo[id], s.mapInfo[id]);
    }
    SameCollisionsKeep(h, s, t);
  }

  lemma OrderFacts(h: Hashing, s: State, n: nat)
    requires InvWith(h, s, {}, 0) && n <= |s.vRandom|
    ensures IndexOk(s.mapInfo, s.vRandom)
    ensures n < |s.vRandom| ==> s.vRandom[n] !in Firsts(s.vRandom, n)
    ensures s.mapInfo.Keys == Firsts(s.vRandom, |s.vRandom|)
    ensures forall id | id in s.mapInfo :: id < s.nIdCount
  {
    hide IndexOk, TriedOk, NewOk, TimesOk;
    OrderSize(s.mapInfo, s.vRandom, n);
    OrderIsAll(s.mapInfo, s.vRandom);
  }

  /**
   Collecting keeps the tables consistent and returns distinct eligible entries, as many as there are up
   to the limit, whatever the random draws.
   */
  lemma {:induction false} CollectSpec(h: Hashing, s: State, n: nat, limit: nat, wanted: Service -> bool, now: int,
          draw: nat -> nat, acc: seq<nat>)
    requires InvWith(h, s, {}, 0) && CollectedOk(s.vRandom, n, limit, EligibleIds(s.mapInfo, wanted, now), acc)
    ensures var r, eligible := Collect(s, n, limit, wanted, now, draw, acc), EligibleIds(s.mapInfo, wanted, now);
            && Keeps(h, s, r.0)
            && Distinct(r.1) && AsSet(r.1) <= eligible
            && |r.1| == if limit < |eligible| then limit else |eligible|
    decreases |s.vRandom| - n
  {
    hide InvWith, Inv, IndexOk, Kept, SwapRandom, EligibleIds, Eligible, CollectedOk, Firsts, Pick;
    CollectedBounds(s.vRandom, n, limit, EligibleIds(s.mapInfo, wanted, now), acc);
    var eligible := EligibleIds(s.mapInfo, wanted, now);
    OrderFacts(h, s, n);
    EligibleExist(s.mapInfo, wanted, now);
    if n >= |s.vRandom| || |acc| >= limit {
      KeepsItself(h, s);
      CollectEnd(s.vRandom, n, limit, eligible, acc);
    } else {
      var j := Pick(draw, n, |s.vRandom|);
      SwapBeyond(s, n, j, wanted, now);
      SwapKept(h, s, n, j);
      var t := SwapRandom(s, n, j);
      OrderFacts(h, t, n);
      CollectedMoves(s.vRandom, t.vRandom, n, limit, eligible, acc);
      CollectStep(t.vRandom, n, limit, eligible, acc);
      var id := t.vRandom[n];
      var next := acc + if id in t.mapInfo && Eligible(t.mapInfo[id], wanted, now) then [id] else [];
      CollectSpec(h, t, n + 1, limit, wanted, now, draw, next);
      KeepsTransitive(h, s, t, Collect(t, n + 1, limit, wanted, now, draw, next).0);
    }
  }

  lemma NothingCollected(v: seq<nat>, limit: nat, eligible: set<nat>)
    ensures CollectedOk(v, 0, limit, eligible, [])
  {
  }

  lemma CollectedBounds(v: seq<nat>, n: nat, limit: nat, eligible: set<nat>, acc: seq<nat>)
    requires CollectedOk(v, n, limit, eligible, acc)
    ensures n <= |v| && |acc| <= limit && Distinct(acc)
  {
  }

  lemma CollectedMoves(v: seq<nat>, w: seq<nat>, n: nat, limit: nat, eligible: set<nat>, acc: seq<nat>)
    requires CollectedOk(v, n, limit, eligible, acc) && |w| == |v| && Firsts(w, n) == Firsts(v, n)
    ensures CollectedOk(w, n, limit, eligible, acc)
  {
  }

  lemma EligibleExist(m: InfoMap, wanted: Service -> bool, now: int)
    ensures EligibleIds(m, wanted, now) <= m.Keys
  {
  }

  // ----- whole runs -----

  datatype Call =
    | AddCall(service: Service, nTime: int, nServices: set<nat>, source: NetAddr, penalty: int, now: int,
            routable: bool, draw: nat -> nat)
    | GoodCall(service: Service, testBeforeEvict: bool, nTime: int)
    | AttemptCall(service: Service, fCountFailure: bool, nTime: int)
    | ConnectedCall(service: Service, nTime: int)
    | SetServicesCall(service: Service, nServices: set<nat>)
    | GetAddrCall(limit: nat, wanted: Service -> bool, now: int, draw: nat -> nat)
    | ResolveCall(ids: seq<nat>, valid: Service -> bool, now: int)

  /** Times handed in are positive. */
  predicate LegalCall(c: Call) {
    match c
    case GoodCall(_, _, nTime) => nTime > 0
    case AttemptCall(_, _, nTime) => nTime > 0
    case ResolveCall(_, _, now) => now > 0
    case _ => true
  }

  function Step(h: Hashing, s: State, c: Call): State {
    match c
    case AddCall(service, nTime, nServices, source, penalty, now, routable, draw) =>
      Add(h, s, service, nTime, nServices, source, penalty, now, routable, draw).0
    case GoodCall(service, testBeforeEvict, nTime) => Good(h, s, service, testBeforeEvict, nTime)
    case AttemptCall(service, fCountFailure, nTime) =>
      OnEntry(s, service, (a: AddrInfo) => Attempted(a, fCountFailure, nTime, s.nLastGood))
    case ConnectedCall(service, nTime) => OnEntry(s, service, (a: AddrInfo) => Connected(a, nTime))
    case SetServicesCall(service, nServices) => OnEntry(s, service, (a: AddrInfo) => a.(nServices := nServices))
    case GetAddrCall(limit, wanted, now, draw) => Collect(s, 0, limit, wanted, now, draw, []).0
    case ResolveCall(ids, valid, now) => ResolveAll(h, s, ids, valid, now)
  }

  lemma StepSpec(h: Hashing, s: State, c: Call)
    requires InvWith(h, s, {}, 0) && LegalCall(c)
    ensures Keeps(h, s, Step(h, s, c))
  {
    hide InvWith, Inv, Kept, Keeps, Add, Good, OnEntry, Collect, ResolveAll;
    match c {
      case AddCall(service, nTime, nServices, source, penalty, now, routable, draw) =>
        AddSpec(h, s, service, nTime, nServices, source, penalty, now, routable, draw);
      case GoodCall(service, testBeforeEvict, nTime) =>
        GoodSpec(h, s, service, testBeforeEvict, nTime);
      case AttemptCall(service, fCountFailure, nTime) =>
        OnEntrySpec(h, s, service, (a: AddrInfo) => Attempted(a, fCountFailure, nTime, s.nLastGood));
      case ConnectedCall(service, nTime) =>
        OnEntrySpec(h, s, service, (a: AddrInfo) => Connected(a, nTime));
      case SetServicesCall(service, nServices) =>
        OnEntrySpec(h, s, service, (a: AddrInfo) => a.(nServices := nServices));
      case GetAddrCall(limit, wanted, now, draw) =>
        NothingCollected(s.vRandom, limit, EligibleIds(s.mapInfo, wanted, now));
        CollectSpec(h, s, 0, limit, wanted, now, draw, []);
      case ResolveCall(ids, valid, now) =>
        ResolveAllSpec(h, s, ids, valid, now);
    }
  }

  function Run(h: Hashing, s: State, calls: seq<Call>): State
    decreases |calls|
  {
    if calls == [] then s else Run(h, Step(h, s, calls[0]), calls[1..])
  }

  /**
   Every run of calls from consistent tables keeps them consistent, a tried slot once filled is never empty
   again, and the recorded collisions stay sound if they were.
   */
  lemma {:induction false} RunSpec(h: Hashing, s: State, calls: seq<Call>)
    requires InvWith(h, s, {}, 0) && forall c | c in calls :: LegalCall(c)
    ensures Keeps(h, s, Run(h, s, calls))
    decreases |calls|
  {
    hide InvWith, Inv, Kept, Step;
    if calls == [] {
      KeepsItself(h, s);
    } else {
      StepSpec(h, s, calls[0]);
      var t := Step(h, s, calls[0]);
      RunSpec(h, t, calls[1..]);
      KeepsTransitive(h, s, t, Run(h, t, calls[1..]));
    }
  }

  /**
   Started from `Clear`, any run leaves every recorded collision that still exists with an occupied tried
   slot whose entry exists, so the collision lookup never asks for a missing id.
   */
  lemma CollisionLookupIsSafe(h: Hashing, calls: seq<Call>, id: nat)
    requires h.Ok() && forall c | c in calls :: LegalCall(c)
    requires var s := Run(h, Empty, calls); id in s.collisions && id in s.mapInfo
    ensures var s := Run(h, Empty, calls);
            var k := h.TriedSlot(s.mapInfo[id].service);
            k in s.vvTried && s.vvTried[k] in s.mapInfo && s.mapInfo[s.vvTried[k]].fInTried
  {
    EmptyIsConsistent(h);
    RunSpec(h, Empty, calls);
  }
}
