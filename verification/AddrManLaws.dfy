/**
 What each call of the address manager does to the entries and tables, told by times, slots and counts: which
 collisions are resolved and how, which announcements are stored, which statistics change and which do not.
 */
module AddrManLaws {
  import opened Arithmetic
  import opened Powers
  import opened Sets
  import opened AddrManSpec
  import opened AddrManOps

  // ----- statistics that table moves leave alone -----

  /** Equal but for what the tables themselves keep: the reference count, the tried flag and the random place. */
  predicate SameStats(a: AddrInfo, b: AddrInfo) {
    a == b.(nRefCount := a.nRefCount, fInTried := a.fInTried, nRandomPos := a.nRandomPos)
  }

  /** No entry appears, and those that stay keep their statistics. */
  ghost predicate StatsKept(s: State, t: State) {
    && t.nLastGood == s.nLastGood && t.nIdCount == s.nIdCount && t.collisions == s.collisions
    && forall x | x in t.mapInfo :: x in s.mapInfo && SameStats(t.mapInfo[x], s.mapInfo[x])
  }

  lemma StatsKeptTwice(s: State, t: State, u: State)
    requires StatsKept(s, t) && StatsKept(t, u)
    ensures StatsKept(s, u)
  {
  }

  lemma SwapKeepsStats(s: State, i: nat, j: nat)
    ensures StatsKept(s, SwapRandom(s, i, j))
  {
  }

  lemma DeleteKeepsStats(s: State, id: nat)
    ensures StatsKept(s, Delete(s, id))
  {
    if id in s.mapInfo && s.vRandom != [] {
      SwapKeepsStats(s, s.mapInfo[id].nRandomPos, |s.vRandom| - 1);
      hide SwapRandom;
    }
  }

  lemma ClearNewKeepsStats(s: State, k: Slot)
    ensures StatsKept(s, ClearNew(s, k))
  {
    if k in s.vvNew && s.vvNew[k] in s.mapInfo {
      DropKeepsStats(s, k);
      DeleteKeepsStats(DropSlot(s, k), s.vvNew[k]);
      hide Delete, DropSlot, StatsKept;
      if DropSlot(s, k).mapInfo[s.vvNew[k]].nRefCount == 0 {
        StatsKeptTwice(s, DropSlot(s, k), Delete(DropSlot(s, k), s.vvNew[k]));
      }
    }
  }

  lemma DropKeepsStats(s: State, k: Slot)
    requires k in s.vvNew && s.vvNew[k] in s.mapInfo
    ensures StatsKept(s, DropSlot(s, k)) && s.vvNew[k] in DropSlot(s, k).mapInfo
  {
  }

  lemma TakeKeepsStats(s: State, id: nat, k: Slot)
    requires id in s.mapInfo
    ensures StatsKept(s, Take(s, id, k))
  {
  }

  /** Looking for a new slot changes no statistics. */
  lemma PlaceKeepsStats(h: Hashing, s: State, id: nat, source: NetAddr, now: int)
    requires id in s.mapInfo
    ensures StatsKept(s, Place(h, s, id, source, now))
  {
    assert StatsKept(s, s);
    hide ClearNew, Delete, Take, MayInsert, StatsKept;
    var k := h.NewSlot(s.mapInfo[id].service, source);
    ClearNewKeepsStats(s, k);
    var c := ClearNew(s, k);
    if id in c.mapInfo {
      TakeKeepsStats(c, id, k);
      StatsKeptTwice(s, c, Take(c, id, k));
    }
    DeleteKeepsStats(s, id);
  }

  lemma BackToNewKeepsStats(h: Hashing, s: State, id: nat)
    requires id in s.mapInfo
    ensures StatsKept(s, BackToNew(h, s, id))
  {
    hide ClearNew, Take;
    var k := h.NewSlot(s.mapInfo[id].service, s.mapInfo[id].source);
    ClearNewKeepsStats(s, k);
    var c := ClearNew(s, k);
    if id in c.mapInfo {
      TakeKeepsStats(c, id, k);
      StatsKeptTwice(s, c, Take(c, id, k));
    }
  }

  lemma StepsKeepStats(s: State, id: nat, k: Slot)
    requires id in s.mapInfo
    ensures StatsKept(s, LeaveNew(s, id)) && StatsKept(s, EnterTried(s, id, k))
    ensures k in s.vvTried && s.vvTried[k] in s.mapInfo ==> StatsKept(s, LeaveTried(s, k))
  {
  }

  /** Moving an entry to the tried table, with an eviction or not, changes no statistics. */
  lemma MakeTriedKeepsStats(h: Hashing, s: State, id: nat)
    requires id in s.mapInfo
    ensures StatsKept(s, MakeTried(h, s, id))
  {
    var a, k := LeaveNew(s, id), h.TriedSlot(s.mapInfo[id].service);
    StepsKeepStats(s, id, k);
    assert id in a.mapInfo;
    StepsKeepStats(a, id, k);
    hide StatsKept, EnterTried, BackToNew, LeaveNew;
    if k !in a.vvTried || a.vvTried[k] !in a.mapInfo {
      StatsKeptTwice(s, a, EnterTried(a, id, k));
    } else {
      var b := LeaveTried(a, k);
      StatsKeptTwice(s, a, b);
      BackToNewKeepsStats(h, b, a.vvTried[k]);
      var c := BackToNew(h, b, a.vvTried[k]);
      StatsKeptTwice(s, b, c);
      if id in c.mapInfo {
        StepsKeepStats(c, id, k);
        StatsKeptTwice(s, c, EnterTried(c, id, k));
      }
    }
  }

  // ----- success reports -----

  /** The entry's statistics after a success report at this time, for exactly its service. */
  ghost predicate ReportedAt(s: State, t: State, service: Service, nTime: int, x: nat)
    requires x in t.mapInfo
  {
    && x in s.mapInfo
    && (s.mapInfo[x].service != service ==> SameStats(t.mapInfo[x], s.mapInfo[x]))
    && (s.mapInfo[x].service == service ==>
          SameStats(t.mapInfo[x], s.mapInfo[x].(nLastSuccess := nTime, nLastTry := nTime, nAttempts := 0)))
  }

  /** The state in which a success report decides where the entry goes. */
  function Reported(s: State, id: nat, nTime: int): State
    requires id in s.mapInfo
  {
    SetInfo(s.(nLastGood := nTime), id, MarkedGood(s.mapInfo[id], nTime))
  }

  lemma GoodShape(h: Hashing, s: State, service: Service, testBeforeEvict: bool, nTime: int)
    ensures
      var t, f := Good(h, s, service, testBeforeEvict, nTime), Find(s, service.addr);
      if f.None? || s.mapInfo[f.value].service != service then t == s.(nLastGood := nTime)
      else
        var u := Reported(s, f.value, nTime);
        t == u || t == u.(collisions := u.collisions + {f.value}) || t == MakeTried(h, u, f.value)
  {
    hide MakeTried, InSomeBucket;
  }

  lemma ReportedStats(s: State, id: nat, nTime: int, t: State, x: nat)
    requires id in s.mapInfo && x in t.mapInfo
    requires forall y | y in s.mapInfo && s.mapInfo[y].service == s.mapInfo[id].service :: y == id
    requires x in s.mapInfo && SameStats(t.mapInfo[x], Reported(s, id, nTime).mapInfo[x])
    ensures ReportedAt(s, t, s.mapInfo[id].service, nTime, x)
  {
  }

  /**
   A success report writes the time into the entry for exactly this service, clears its failures, and changes
   the statistics of no other entry; for an unknown service it changes nothing but the time of the last success.
   */
  lemma GoodTouches(h: Hashing, s: State, service: Service, testBeforeEvict: bool, nTime: int)
    requires InvWith(h, s, {}, 0)
    ensures
      var t := Good(h, s, service, testBeforeEvict, nTime);
      && t.nLastGood == nTime && t.nIdCount == s.nIdCount
      && (forall x | x in t.mapInfo :: ReportedAt(s, t, service, nTime, x))
      && ((forall x | x in s.mapInfo :: s.mapInfo[x].service != service) ==> t == s.(nLastGood := nTime))
  {
    FindSpec(h, s, service.addr);
    GoodShape(h, s, service, testBeforeEvict, nTime);
    hide InvWith, Good, MakeTried, Reported, ReportedAt;
    var t, f := Good(h, s, service, testBeforeEvict, nTime), Find(s, service.addr);
    if f.Some? && s.mapInfo[f.value].service == service {
      ServiceIsUnique(h, s, f.value);
      ReportedTouches(h, s, f.value, nTime, t);
    } else {
      UnreportedStats(s, service, nTime, t);
    }
  }

  lemma UnreportedStats(s: State, service: Service, nTime: int, t: State)
    requires t == s.(nLastGood := nTime) && forall x | x in s.mapInfo :: s.mapInfo[x].service != service
    ensures forall x | x in t.mapInfo :: ReportedAt(s, t, service, nTime, x)
  {
  }

  lemma ReportedTouches(h: Hashing, s: State, id: nat, nTime: int, t: State)
    requires id in s.mapInfo
    requires forall y | y in s.mapInfo && s.mapInfo[y].service == s.mapInfo[id].service :: y == id
    requires var u := Reported(s, id, nTime);
             t == u || t == u.(collisions := u.collisions + {id}) || t == MakeTried(h, u, id)
    ensures t.nLastGood == nTime && t.nIdCount == s.nIdCount
    ensures forall x | x in t.mapInfo :: ReportedAt(s, t, s.mapInfo[id].service, nTime, x)
  {
    var u := Reported(s, id, nTime);
    MakeTriedKeepsStats(h, u, id);
    assert u.mapInfo.Keys == s.mapInfo.Keys;
    hide MakeTried, ReportedAt;
    forall x | x in t.mapInfo ensures ReportedAt(s, t, s.mapInfo[id].service, nTime, x) {
      ReportedStats(s, id, nTime, t, x);
    }
  }

  lemma ServiceIsUnique(h: Hashing, s: State, id: nat)
    requires InvWith(h, s, {}, 0) && id in s.mapInfo
    ensures forall x | x in s.mapInfo && s.mapInfo[x].service == s.mapInfo[id].service :: x == id
  {
  }

  /** An entry that is evicted from the tried table by a success report is back in exactly one new slot. */
  lemma GoodEvicts(h: Hashing, s: State, id: nat, nTime: int)
    requires Inv(h, s) && nTime > 0 && id in s.mapInfo && !s.mapInfo[id].fInTried
    requires h.TriedSlot(s.mapInfo[id].service) in s.vvTried
    ensures
      var t := Good(h, s, s.mapInfo[id].service, false, nTime);
      var evicted := s.vvTried[h.TriedSlot(s.mapInfo[id].service)];
      && evicted in t.mapInfo && !t.mapInfo[evicted].fInTried && t.mapInfo[evicted].nRefCount == 1
      && t.nTried == s.nTried
  {
    hide IndexOk, AddrOk, TriedOk, NewOk, TimesOk, MakeTried, InSomeBucket;
    FindSpec(h, s, s.mapInfo[id].service.addr);
    TimesAt(s, id);
    KeptByCounters(h, s, nTime, s.collisions);
    var s1 := s.(nLastGood := nTime);
    var u := SetInfo(s1, id, MarkedGood(s1.mapInfo[id], nTime));
    SetStatsSpec(h, s1, id, MarkedGood(s1.mapInfo[id], nTime));
    UntriedIsInSomeBucket(h, u, id);
    MakeTriedSpec(h, u, id);
    TriedCounted(h, s);
    TriedCounted(h, MakeTried(h, u, id));
  }

  lemma TriedCounted(h: Hashing, s: State)
    requires InvWith(h, s, {}, 0)
    ensures s.nTried == |s.vvTried.Keys|
  {
    TriedCount(h, s.mapInfo, s.vvTried);
  }

  lemma TriedCount(h: Hashing, m: InfoMap, t: Table)
    requires TriedSlotsOk(h, m, t)
    ensures |TriedIds(m)| == |t.Keys|
  {
    var slot := map id | id in m && m[id].fInTried :: h.TriedSlot(m[id].service);
    assert slot.Keys == TriedIds(m);
    SameSize(slot, t);
  }

  /** A table and a map that are inverse to each other are equally large. */
  lemma {:induction false} SameSize(slot: map<nat, Slot>, t: Table)
    requires forall id | id in slot :: slot[id] in t && t[slot[id]] == id
    requires forall k | k in t :: t[k] in slot && slot[t[k]] == k
    ensures |slot.Keys| == |t.Keys|
    decreases |slot|
  {
    if slot == map[] {
      assert t.Keys == {};
    } else {
      var id :| id in slot;
      var k := slot[id];
      assert (slot - {id}).Keys == slot.Keys - {id} && (t - {k}).Keys == t.Keys - {k};
      assert |slot - {id}| < |slot| by {
        assert |(slot - {id}).Keys| == |slot - {id}|;
      }
      SameSize(slot - {id}, t - {k});
    }
  }

  // ----- resolving collisions -----

  /** The collision is only forgotten. */
  ghost predicate Forgotten(s: State, t: State, id: nat) { t == s.(collisions := s.collisions - {id}) }

  /** The newcomer has taken its tried slot, at this time, and the collision is forgotten. */
  ghost predicate TakenOver(h: Hashing, s: State, t: State, id: nat, now: int)
    requires id in s.mapInfo
  {
    && t.vvTried == s.vvTried[h.TriedSlot(s.mapInfo[id].service) := id]
    && id in t.mapInfo && t.mapInfo[id].fInTried && t.mapInfo[id].nLastSuccess == now
    && t.collisions == s.collisions - {id}
  }

  /**
   What becomes of a recorded collision.  One whose entry is gone or invalid is only forgotten.  An empty tried
   slot is taken.  An entry in the way that succeeded within four hours stays and the collision is forgotten;
   one that was tried within four hours gives way if and only if that was more than a minute ago; any other
   gives way if and only if the newcomer's last success is more than forty minutes old.  Otherwise all waits.
   */
  lemma ResolveOneAchieves(h: Hashing, s: State, id: nat, valid: bool, now: int)
    requires Inv(h, s) && now > 0
    ensures id !in s.mapInfo || !valid ==> Forgotten(s, ResolveOne(h, s, id, valid, now), id)
    ensures id in s.mapInfo && valid ==>
              var t, k := ResolveOne(h, s, id, valid, now), h.TriedSlot(s.mapInfo[id].service);
              && (k !in s.vvTried ==> TakenOver(h, s, t, id, now))
              && (k in s.vvTried ==>
                    && s.vvTried[k] in s.mapInfo
                    && var old_info := s.mapInfo[s.vvTried[k]];
                       if now - old_info.nLastSuccess < 14400 then Forgotten(s, t, id)
                       else if now - old_info.nLastTry < 14400 then
                         if now - old_info.nLastTry > 60 then TakenOver(h, s, t, id, now) else t == s
                       else if now - s.mapInfo[id].nLastSuccess > 2400 then TakenOver(h, s, t, id, now)
                       else t == s)
  {
    hide Inv, ResolveOne, Forgotten, TakenOver;
    if id in s.mapInfo && valid {
      ValidResolved(h, s, id, now);
    } else {
      InvalidForgotten(h, s, id, valid, now);
    }
  }

  lemma InvalidForgotten(h: Hashing, s: State, id: nat, valid: bool, now: int)
    requires id !in s.mapInfo || !valid
    ensures Forgotten(s, ResolveOne(h, s, id, valid, now), id)
  {
    hide Good;
  }

  lemma ReplacedIsTakenOver(h: Hashing, s: State, id: nat, valid: bool, now: int)
    requires Inv(h, s) && now > 0 && id in s.mapInfo && Judge(h, s, id, valid, now) == Replace
    ensures TakenOver(h, s, ResolveOne(h, s, id, valid, now), id, now)
  {
    GoodAchieves(h, s, id, false, now);
    hide Inv, Good, Judge;
  }

  lemma ValidResolved(h: Hashing, s: State, id: nat, now: int)
    requires Inv(h, s) && now > 0 && id in s.mapInfo
    ensures
      var t, k := ResolveOne(h, s, id, true, now), h.TriedSlot(s.mapInfo[id].service);
      && (k !in s.vvTried ==> TakenOver(h, s, t, id, now))
      && (k in s.vvTried ==>
            && s.vvTried[k] in s.mapInfo
            && var old_info := s.mapInfo[s.vvTried[k]];
               if now - old_info.nLastSuccess < 14400 then Forgotten(s, t, id)
               else if now - old_info.nLastTry < 14400 then
                 if now - old_info.nLastTry > 60 then TakenOver(h, s, t, id, now) else t == s
               else if now - s.mapInfo[id].nLastSuccess > 2400 then TakenOver(h, s, t, id, now)
               else t == s)
  {
    hide Inv, Good, TakenOver;
    var k := h.TriedSlot(s.mapInfo[id].service);
    if k in s.vvTried {
      TriedSlotHeld(h, s, k);
    }
    if Judge(h, s, id, true, now) == Replace {
      ReplacedIsTakenOver(h, s, id, true, now);
    }
  }

  lemma TriedSlotHeld(h: Hashing, s: State, k: Slot)
    requires Inv(h, s) && k in s.vvTried
    ensures s.vvTried[k] in s.mapInfo
  {
  }

  /** Every entry was last tried over a minute ago and last reached over forty minutes ago, or just now by us. */
  ghost predicate Quiet(s: State, now: int, done: set<nat>) {
    forall x | x in s.mapInfo ::
      || (x in done && s.mapInfo[x].nLastSuccess == now)
      || (now - s.mapInfo[x].nLastTry > 60 && now - s.mapInfo[x].nLastSuccess > 2400)
  }

  /** Then nothing waits. */
  lemma NothingWaits(h: Hashing, s: State, id: nat, valid: bool, now: int, done: set<nat>)
    requires Inv(h, s) && now > 0 && id !in done && Quiet(s, now, done)
    ensures var t := ResolveOne(h, s, id, valid, now);
            Forgotten(s, t, id) || (id in s.mapInfo && TakenOver(h, s, t, id, now))
  {
    ResolveOneAchieves(h, s, id, valid, now);
    hide Inv, ResolveOne, Forgotten, TakenOver;
  }

  lemma ResolvedStats(h: Hashing, s: State, id: nat, valid: bool, now: int, x: nat)
    requires Inv(h, s) && now > 0 && x in ResolveOne(h, s, id, valid, now).mapInfo && x != id
    ensures x in s.mapInfo && SameStats(ResolveOne(h, s, id, valid, now).mapInfo[x], s.mapInfo[x])
  {
    hide InvWith, Good, Judge;
    if id in s.mapInfo {
      OnlyItself(h, s, id);
      GoodTouches(h, s, s.mapInfo[id].service, false, now);
    }
  }

  lemma ResolveOneQuiet(h: Hashing, s: State, id: nat, valid: bool, now: int, done: set<nat>)
    requires Inv(h, s) && now > 0 && id !in done && Quiet(s, now, done)
    ensures var t := ResolveOne(h, s, id, valid, now);
            t.collisions == s.collisions - {id} && Quiet(t, now, done + {id})
  {
    NothingWaits(h, s, id, valid, now, done);
    var t := ResolveOne(h, s, id, valid, now);
    forall x | x in t.mapInfo && x != id ensures x in s.mapInfo && SameStats(t.mapInfo[x], s.mapInfo[x]) {
      ResolvedStats(h, s, id, valid, now, x);
    }
    hide Inv, ResolveOne;
    StaysQuiet(s, t, id, now, done);
  }

  lemma StaysQuiet(s: State, t: State, id: nat, now: int, done: set<nat>)
    requires Quiet(s, now, done)
    requires forall x | x in t.mapInfo && x != id :: x in s.mapInfo && SameStats(t.mapInfo[x], s.mapInfo[x])
    requires id in t.mapInfo ==>
               t.mapInfo[id].nLastSuccess == now || (id in s.mapInfo && t.mapInfo[id] == s.mapInfo[id])
    ensures Quiet(t, now, done + {id})
  {
  }

  /** On quiet entries, going through any list of different collisions resolves every one of them. */
  lemma {:induction false} AllResolved(
    h: Hashing, s: State, ids: seq<nat>, valid: Service -> bool, now: int, done: set<nat>)
    requires Inv(h, s) && now > 0 && Quiet(s, now, done)
    requires forall i | 0 <= i < |ids| :: ids[i] !in done
    requires forall i, j | 0 <= i < j < |ids| :: ids[i] != ids[j]
    ensures ResolveAll(h, s, ids, valid, now).collisions == s.collisions - set id | id in ids
    decreases |ids|
  {
    hide Inv, ResolveOne, Quiet, Keeps;
    if ids != [] {
      var ok := IsValid(s, ids[0], valid);
      ResolveOneQuiet(h, s, ids[0], ok, now, done);
      var t := ResolveOne(h, s, ids[0], ok, now);
      ResolvedIsSound(h, s, ids[0], ok, now);
      AllResolved(h, t, ids[1..], valid, now, done + {ids[0]});
      assert (set id | id in ids) == {ids[0]} + set id | id in ids[1..];
    }
  }

  lemma ResolvedIsSound(h: Hashing, s: State, id: nat, valid: bool, now: int)
    requires Inv(h, s) && now > 0
    ensures Inv(h, ResolveOne(h, s, id, valid, now))
  {
    assert InvWith(h, s, {}, 0);
    hide InvWith, CollisionsOk, ResolveOne;
    ResolveOneSpec(h, s, id, valid, now);
  }

  lemma OnlyItself(h: Hashing, s: State, id: nat)
    requires Inv(h, s) && id in s.mapInfo
    ensures forall x | x in s.mapInfo && x != id :: s.mapInfo[x].service != s.mapInfo[id].service
  {
  }

  // ----- attempts, connections, services -----

  /** A change for one service changes exactly the entry for it, port included, and nothing else. */
  lemma OnEntryAchieves(h: Hashing, s: State, service: Service, change: AddrInfo -> AddrInfo, id: nat)
    requires InvWith(h, s, {}, 0) && id in s.mapInfo
    ensures
      var t := OnEntry(s, service, change);
      && t == s.(mapInfo := t.mapInfo) && t.mapInfo.Keys == s.mapInfo.Keys && id in t.mapInfo
      && t.mapInfo[id] == if s.mapInfo[id].service == service then change(s.mapInfo[id]) else s.mapInfo[id]
  {
    hide InvWith, Find;
    FindSpec(h, s, service.addr);
  }

  lemma OnlyTheEntry(h: Hashing, s: State, op: Call, id: nat)
    requires InvWith(h, s, {}, 0) && id in s.mapInfo
    requires op.AttemptCall? || op.ConnectedCall? || op.SetServicesCall?
    ensures var t := Step(h, s, op); t == s.(mapInfo := t.mapInfo) && id in t.mapInfo
    ensures s.mapInfo[id].service != op.service ==> Step(h, s, op).mapInfo[id] == s.mapInfo[id]
    ensures s.mapInfo[id].service == op.service ==>
              Step(h, s, op).mapInfo[id] == match op
                case AttemptCall(_, fCount, nTime) => Attempted(s.mapInfo[id], fCount, nTime, s.nLastGood)
                case ConnectedCall(_, nTime) => Connected(s.mapInfo[id], nTime)
                case SetServicesCall(_, nServices) => s.mapInfo[id].(nServices := nServices)
  {
    hide InvWith, OnEntry, Attempted, Connected;
    match op
    case AttemptCall(service, fCount, nTime) =>
      OnEntryAchieves(h, s, service, (a: AddrInfo) => Attempted(a, fCount, nTime, s.nLastGood), id);
    case ConnectedCall(service, nTime) =>
      OnEntryAchieves(h, s, service, (a: AddrInfo) => Connected(a, nTime), id);
    case SetServicesCall(service, nServices) =>
      OnEntryAchieves(h, s, service, (a: AddrInfo) => a.(nServices := nServices), id);
  }

  /** An attempt is timed, and counted once at most since the last success of any entry. */
  lemma AttemptAchieves(h: Hashing, s: State, service: Service, fCountFailure: bool, nTime: int, id: nat)
    requires InvWith(h, s, {}, 0) && id in s.mapInfo
    ensures
      var t := Step(h, s, AttemptCall(service, fCountFailure, nTime));
      && t == s.(mapInfo := t.mapInfo) && id in t.mapInfo
      && (s.mapInfo[id].service != service ==> t.mapInfo[id] == s.mapInfo[id])
      && (s.mapInfo[id].service == service ==> TriedAgain(s, s.mapInfo[id], t.mapInfo[id], fCountFailure, nTime))
  {
    hide InvWith, Step;
    OnlyTheEntry(h, s, AttemptCall(service, fCountFailure, nTime), id);
  }

  /** b is a after an attempt at nTime, a failure if fCountFailure and none was counted since the last success. */
  predicate TriedAgain(s: State, a: AddrInfo, b: AddrInfo, fCountFailure: bool, nTime: int) {
    && b == a.(nLastTry := nTime, nAttempts := b.nAttempts, nLastCountAttempt := b.nLastCountAttempt)
    && (fCountFailure && a.nLastCountAttempt < s.nLastGood ==>
          b.nAttempts == a.nAttempts + 1 && b.nLastCountAttempt == nTime)
    && (!fCountFailure || a.nLastCountAttempt >= s.nLastGood ==>
          b.nAttempts == a.nAttempts && b.nLastCountAttempt == a.nLastCountAttempt)
  }

  /** Two attempts after the last success, however they are counted, add one failure at most. */
  lemma CountedOnce(h: Hashing, s: State, service: Service, first: bool, second: bool, nTime: int, later: int, id: nat)
    requires InvWith(h, s, {}, 0) && id in s.mapInfo && s.nLastGood <= nTime && nTime > 0 && later > 0
    ensures
      var t := Step(h, s, AttemptCall(service, first, nTime));
      var u := Step(h, t, AttemptCall(service, second, later));
      id in u.mapInfo && s.mapInfo[id].nAttempts <= u.mapInfo[id].nAttempts <= s.mapInfo[id].nAttempts + 1
  {
    hide InvWith, Step, Keeps;
    var t := Step(h, s, AttemptCall(service, first, nTime));
    AttemptAchieves(h, s, service, first, nTime, id);
    AttemptKeepsInv(h, s, service, first, nTime);
    AttemptAchieves(h, t, service, second, later, id);
  }

  lemma AttemptKeepsInv(h: Hashing, s: State, service: Service, fCountFailure: bool, nTime: int)
    requires InvWith(h, s, {}, 0) && nTime > 0
    ensures InvWith(h, Step(h, s, AttemptCall(service, fCountFailure, nTime)), {}, 0)
  {
    hide InvWith, Step;
    StepSpec(h, s, AttemptCall(service, fCountFailure, nTime));
  }

  /** A connection refreshes the time of an entry that was last seen over twenty minutes before. */
  lemma ConnectedAchieves(h: Hashing, s: State, service: Service, nTime: int, id: nat)
    requires InvWith(h, s, {}, 0) && id in s.mapInfo
    ensures
      var t, a := Step(h, s, ConnectedCall(service, nTime)), s.mapInfo[id];
      && t == s.(mapInfo := t.mapInfo) && id in t.mapInfo
      && t.mapInfo[id] == if a.service == service && nTime - a.nTime > 1200 then a.(nTime := nTime) else a
  {
    hide InvWith, Step;
    OnlyTheEntry(h, s, ConnectedCall(service, nTime), id);
  }

  lemma SetServicesAchieves(h: Hashing, s: State, service: Service, nServices: set<nat>, id: nat)
    requires InvWith(h, s, {}, 0) && id in s.mapInfo
    ensures
      var t, a := Step(h, s, SetServicesCall(service, nServices)), s.mapInfo[id];
      && t == s.(mapInfo := t.mapInfo) && id in t.mapInfo
      && t.mapInfo[id] == if a.service == service then a.(nServices := nServices) else a
  {
    hide InvWith, Step;
    OnlyTheEntry(h, s, SetServicesCall(service, nServices), id);
  }

  // ----- quality -----

  /**
   What is not terrible: anything tried within the last minute; else what was seen within thirty days and not
   in the future, has succeeded or failed less than three times, and has succeeded within a week or failed
   less than ten times.
   */
  lemma TerribleIff(a: AddrInfo, now: int)
    ensures
      !IsTerrible(a, now)
      <==> || (a.nLastTry != 0 && now - a.nLastTry <= 60)
           || (&& a.nTime != 0 && now - 2592000 <= a.nTime <= now + 600
               && (a.nLastSuccess != 0 || a.nAttempts < 3)
               && (now - a.nLastSuccess <= 604800 || a.nAttempts < 10))
  {
  }

  /** The bound on a listing is the largest number within both the share and the count that were asked for. */
  lemma NodeLimitIsLargest(size: nat, maxAddresses: nat, maxPct: nat, n: nat)
    ensures
      n <= NodeLimit(size, maxAddresses, maxPct)
      <==> && (maxPct == 0 ==> n <= size) && (maxPct != 0 ==> 100 * n <= maxPct * size)
           && (maxAddresses != 0 ==> n <= maxAddresses)
  {
    Hundredth(maxPct * size, n);
  }

  lemma Hundredth(x: int, n: nat)
    ensures n <= x / 100 <==> 100 * n <= x
  {
  }

  /** A listing holds no entry twice and only wanted ones that are not terrible, and all of those if it is short. */
  lemma ListedMeans(h: Hashing, s: State, limit: nat, wanted: Service -> bool, now: int, draw: nat -> nat, id: nat)
    requires InvWith(h, s, {}, 0)
    ensures
      var ids := Collect(s, 0, limit, wanted, now, draw, []).1;
      && |ids| <= limit && (forall i, j | 0 <= i < j < |ids| :: ids[i] != ids[j])
      && (id in ids ==> id in s.mapInfo && wanted(s.mapInfo[id].service) && !IsTerrible(s.mapInfo[id], now))
      && (|ids| < limit ==>
            (id in ids <== id in s.mapInfo && wanted(s.mapInfo[id].service) && !IsTerrible(s.mapInfo[id], now)))
  {
    hide InvWith, Collect, Keeps, IsTerrible;
    var ids, eligible := Collect(s, 0, limit, wanted, now, draw, []).1, EligibleIds(s.mapInfo, wanted, now);
    NothingCollected(s.vRandom, limit, eligible);
    CollectSpec(h, s, 0, limit, wanted, now, draw, []);
    DistinctSize(ids);
    SubsetSize(AsSet(ids), eligible);
    assert id in ids <==> id in AsSet(ids);
  }

  // ----- announcements -----

  /**
   The stored time never goes back, and lags an announced one by the penalty and an hour at most, or a day for
   announcements that are over a day old; it never runs ahead of the announced time less the penalty.
   */
  lemma ReannouncedTime(a: AddrInfo, nTime: int, nServices: set<nat>, penalty: int, now: int)
    ensures
      var b := Reannounced(a, nTime, nServices, penalty, now);
      var lag := if now - nTime < 86400 then 3600 else 86400;
      && b == a.(nTime := b.nTime, nServices := a.nServices + nServices) && a.nTime <= b.nTime
      && (nTime == 0 ==> b.nTime == a.nTime)
      && (nTime != 0 ==> b.nTime >= nTime - lag - penalty)
      && (b.nTime != a.nTime ==> b.nTime == nTime - penalty || b.nTime == 0)
      && (nTime != 0 && a.nTime != 0 && nTime - lag - penalty <= a.nTime ==> b.nTime == a.nTime)
  {
  }

  lemma Pow2IsPow(n: nat)
    ensures Pow2(n) == Pow(2, n)
  {
    if n > 0 {
      Pow2IsPow(n - 1);
    }
  }

  /**
   Whether an entry may have slot k: a free one, its own, one held by a terrible entry, or, for an entry that has
   no slot yet, one whose holder has others.
   */
  predicate Takes(s: State, id: nat, k: Slot, now: int)
    requires id in s.mapInfo
  {
    k in s.vvNew && s.vvNew[k] != id && s.vvNew[k] in s.mapInfo ==>
      || IsTerrible(s.mapInfo[s.vvNew[k]], now)
      || (s.mapInfo[s.vvNew[k]].nRefCount > 1 && s.mapInfo[id].nRefCount == 0)
  }

  /** A placement fills the slot its source selects if and only if the entry may have that slot. */
  lemma PlacedIff(h: Hashing, s: State, id: nat, source: NetAddr, now: int)
    requires Placeable(h, s, id)
    ensures
      var t, k := Place(h, s, id, source, now), h.NewSlot(s.mapInfo[id].service, source);
      && t.vvNew == (if Takes(s, id, k, now) then s.vvNew[k := id] else s.vvNew)
      && (id in t.mapInfo <==> Takes(s, id, k, now) || s.mapInfo[id].nRefCount > 0)
  {
    PlaceAchieves(h, s, id, source, now);
    var k := h.NewSlot(s.mapInfo[id].service, source);
    if k in s.vvNew && s.vvNew[k] == id {
      HolderHasSlot(h, s, id, k);
    }
    hide Place, IsTerrible, Placeable;
  }

  lemma HolderHasSlot(h: Hashing, s: State, id: nat, k: Slot)
    requires Placeable(h, s, id) && k in s.vvNew && s.vvNew[k] == id
    ensures s.mapInfo[id].nRefCount > 0 && s.vvNew[k := id] == s.vvNew
  {
    hide IndexOk, AddrOk, TriedOk, TimesOk;
    assert k in SlotsOf(s.vvNew, id);
  }

  /**
   An announcement of a known address refreshes its time and services and no other statistics.  It gets the slot
   its source selects, if it may have it, exactly when the announced time is newer than the stored one, the
   entry is untried with less than eight slots, and a draw among two to the number of its slots comes out zero.
   */
  lemma KnownAchieves(h: Hashing, s: State, id: nat, nTime: int, nServices: set<nat>, source: NetAddr,
                      penalty: int, now: int, draw: nat -> nat)
    requires InvWith(h, s, {}, 0) && id in s.mapInfo
    ensures
      var t := AddKnown(h, s, id, nTime, nServices, source, penalty, now, draw);
      var a, k := s.mapInfo[id], h.NewSlot(s.mapInfo[id].service, source);
      var stored := Reannounced(a, nTime, nServices, penalty, now).nTime;
      var looks := && nTime != 0 && (stored == 0 || nTime > stored)
                   && !a.fInTried && a.nRefCount < 8 && draw(Pow(2, a.nRefCount)) == 0;
      && id in t.mapInfo && SameStats(t.mapInfo[id], a.(nTime := stored, nServices := a.nServices + nServices))
      && (forall x | x in t.mapInfo && x != id :: x in s.mapInfo && SameStats(t.mapInfo[x], s.mapInfo[x]))
      && t.vvNew == (if looks && Takes(s, id, k, now) then s.vvNew[k := id] else s.vvNew)
  {
    hide InvWith, Place, Takes, Pow2, Pow;
    var b := Reannounced(s.mapInfo[id], nTime, nServices, penalty, now);
    var t := SetInfo(s, id, b);
    RefreshedIsPlaceable(h, s, id, b);
    if !b.fInTried && b.nRefCount != 8 {
      Pow2IsPow(b.nRefCount);
      PlacedIff(h, t, id, source, now);
      PlaceKeepsStats(h, t, id, source, now);
      SameTaker(s, id, b, h.NewSlot(s.mapInfo[id].service, source), now);
    }
  }

  lemma RefreshedIsPlaceable(h: Hashing, s: State, id: nat, b: AddrInfo)
    requires InvWith(h, s, {}, 0) && id in s.mapInfo
    requires b == s.mapInfo[id].(nTime := b.nTime, nServices := b.nServices)
    ensures !b.fInTried ==> 1 <= b.nRefCount <= 8
    ensures !b.fInTried && b.nRefCount != 8 ==> Placeable(h, SetInfo(s, id, b), id)
  {
    hide IndexOk, AddrOk, TriedOk, NewOk, TimesOk;
    TimesAt(s, id);
    SetStatsSpec(h, s, id, b);
    if !b.fInTried {
      RoomForMore(h, s, id);
    }
  }

  lemma SameTaker(s: State, id: nat, b: AddrInfo, k: Slot, now: int)
    requires id in s.mapInfo && b.nRefCount == s.mapInfo[id].nRefCount
    ensures id in SetInfo(s, id, b).mapInfo && Takes(SetInfo(s, id, b), id, k, now) == Takes(s, id, k, now)
  {
  }

  /**
   An announcement of an unknown address makes a fresh entry for it, aged by the penalty, if and only if it may
   have the slot its source selects; no other entry's statistics change.
   */
  lemma UnknownAchieves(h: Hashing, s: State, service: Service, nTime: int, nServices: set<nat>, source: NetAddr,
                        penalty: int, now: int)
    requires InvWith(h, s, {}, 0) && Find(s, service.addr).None?
    ensures
      var t, id, k := AddUnknown(h, s, service, nTime, nServices, source, penalty, now), s.nIdCount,
          h.NewSlot(service, source);
      var free := k in s.vvNew && s.vvNew[k] in s.mapInfo ==>
            IsTerrible(s.mapInfo[s.vvNew[k]], now) || s.mapInfo[s.vvNew[k]].nRefCount > 1;
      && id !in s.mapInfo && t.nIdCount == id + 1
      && t.vvNew == (if free then s.vvNew[k := id] else s.vvNew)
      && (id in t.mapInfo <==> free)
      && (free ==>
            SameStats(t.mapInfo[id],
                      AddrInfo(service, Max(0, nTime - penalty), nServices, source, 0, 0, 0, 0, 0, false, 0)))
      && (forall x | x in t.mapInfo && x != id :: x in s.mapInfo && SameStats(t.mapInfo[x], s.mapInfo[x]))
  {
    hide IndexOk, AddrOk, TriedOk, NewOk, TimesOk, Place, Placeable, Find;
    IdsAreOld(s);
    var c := Create(s, service, Max(0, nTime - penalty), nServices, source);
    var t := c.(nNew := c.nNew + 1);
    CreatedIsPlaceable(h, s, service, Max(0, nTime - penalty), nServices, source);
    PlacedIff(h, t, s.nIdCount, source, now);
    PlaceKeepsStats(h, t, s.nIdCount, source, now);
  }

  /** What is added: nothing for an unroutable address; an address that announces itself bears no penalty. */
  lemma AddAchieves(h: Hashing, s: State, service: Service, nTime: int, nServices: set<nat>, source: NetAddr,
                    penalty: int, now: int, routable: bool, draw: nat -> nat)
    requires InvWith(h, s, {}, 0)
    ensures
      var t := Add(h, s, service, nTime, nServices, source, penalty, now, routable, draw).0;
      var aged := Max(0, if service.addr == source then nTime else nTime - penalty);
      && (!routable ==> t == s)
      && (routable && service.addr !in s.mapAddr && s.nIdCount in t.mapInfo ==>
            SameStats(t.mapInfo[s.nIdCount], AddrInfo(service, aged, nServices, source, 0, 0, 0, 0, 0, false, 0)))
      && (forall id | id in s.mapInfo && routable && s.mapInfo[id].service.addr == service.addr ::
            && id in t.mapInfo
            && t.mapInfo[id].nServices == s.mapInfo[id].nServices + nServices
            && (t.mapInfo[id].nTime == s.mapInfo[id].nTime || t.mapInfo[id].nTime == aged))
  {
    hide InvWith, Find, AddKnown, AddUnknown;
    FindSpec(h, s, service.addr);
    var fine := if service.addr == source then 0 else penalty;
    if routable {
      match Find(s, service.addr) {
        case Some(id) => KnownAchieves(h, s, id, nTime, nServices, source, fine, now, draw);
        case None => UnknownAchieves(h, s, service, nTime, nServices, source, fine, now);
      }
    }
  }
}
