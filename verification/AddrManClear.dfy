/**
 Clearing the address manager in the middle of a run.  `Clear` empties every table and draws a new key but
 keeps the recorded collisions; this module says what survives that, exactly when the collision lookup stays
 safe, and where it does not.
 */
module AddrManClear {
  import opened AddrManSpec
  import opened AddrManOps

  /** Clearing gives new bucket hashes; choosing a collision looks up the entry in its way. */
  datatype Event =
    | Do(call: Call)
    | Clear(h: Hashing)
    | Select(id: nat)

  function AfterClear(s: State): State { Empty.(collisions := s.collisions) }

  /** Choosing a collision whose entry is gone forgets it. */
  function Selected(s: State, id: nat): State {
    if id in s.mapInfo then s else s.(collisions := s.collisions - {id})
  }

  ghost predicate Allowed(e: Event) {
    match e
    case Do(call) => LegalCall(call)
    case Clear(h) => h.Ok()
    case Select(_) => true
  }

  /** The lookup finds an entry in the tried slot of a chosen collision that still exists. */
  predicate LookupSafe(h: Hashing, s: State, id: nat) {
    id in s.mapInfo ==>
      var k := h.TriedSlot(s.mapInfo[id].service); k in s.vvTried && s.vvTried[k] in s.mapInfo
  }

  /** An unsafe lookup, which would make up an entry for a missing id, is not modelled. */
  function After(h: Hashing, s: State, e: Event): (Hashing, State) {
    match e
    case Do(call) => (h, Step(h, s, call))
    case Clear(g) => (g, AfterClear(s))
    case Select(id) => (h, if id in s.collisions then Selected(s, id) else s)
  }

  function RunEvents(h: Hashing, s: State, events: seq<Event>): (Hashing, State)
    decreases |events|
  {
    if events == [] then (h, s)
    else
      var r := After(h, s, events[0]);
      RunEvents(r.0, r.1, events[1..])
  }

  /** Every lookup of the run is safe. */
  predicate SafeRun(h: Hashing, s: State, events: seq<Event>)
    decreases |events|
  {
    events == [] ||
    (var e, r := events[0], After(h, s, events[0]);
     && (e.Select? && e.id in s.collisions ==> LookupSafe(h, s, e.id))
     && SafeRun(r.0, r.1, events[1..]))
  }

  /** No collision is recorded whenever the run clears. */
  predicate QuietRun(h: Hashing, s: State, events: seq<Event>)
    decreases |events|
  {
    events == [] ||
    (var r := After(h, s, events[0]);
     (events[0].Clear? ==> s.collisions == {}) && QuietRun(r.0, r.1, events[1..]))
  }

  // ----- what survives -----

  /** Clearing keeps everything exactly when no collision is recorded; the tables are consistent anyhow. */
  lemma ClearKeepsInvIff(h: Hashing, s: State)
    requires h.Ok()
    ensures InvWith(h, AfterClear(s), {}, 0)
    ensures Inv(h, AfterClear(s)) <==> s.collisions == {}
  {
    EmptyIsConsistent(h);
    KeptByCounters(h, Empty, 1, s.collisions);
  }

  lemma SelectSpec(h: Hashing, s: State, id: nat)
    requires InvWith(h, s, {}, 0)
    ensures Keeps(h, s, Selected(s, id))
  {
    hide InvWith, Inv, Kept, Keeps;
    KeepsItself(h, s);
    ForgetSpec(h, s, id);
  }

  /** Every lookup is safe while the collisions are sound. */
  lemma SoundIsSafe(h: Hashing, s: State, id: nat)
    requires Inv(h, s) && id in s.collisions
    ensures LookupSafe(h, s, id)
  {
  }

  lemma KeepsGives(h: Hashing, s: State, t: State)
    requires Keeps(h, s, t)
    ensures InvWith(h, t, {}, 0) && (Inv(h, s) ==> Inv(h, t))
  {
  }

  lemma InvGives(h: Hashing, s: State)
    requires Inv(h, s)
    ensures InvWith(h, s, {}, 0)
  {
  }

  lemma AfterSpec(h: Hashing, s: State, e: Event)
    requires InvWith(h, s, {}, 0) && Allowed(e)
    ensures var r := After(h, s, e);
            && InvWith(r.0, r.1, {}, 0)
            && (Inv(h, s) && (e.Clear? ==> s.collisions == {}) ==> Inv(r.0, r.1))
  {
    hide InvWith, Inv, Keeps, Step, Selected, AfterClear, LegalCall;
    match e {
      case Do(call) =>
        StepSpec(h, s, call);
        KeepsGives(h, s, Step(h, s, call));
      case Clear(g) =>
        ClearKeepsInvIff(g, s);
      case Select(id) =>
        SelectSpec(h, s, id);
        KeepsGives(h, s, Selected(s, id));
    }
  }

  /** The tables stay consistent through any run of safe lookups, with any number of clears and new keys. */
  lemma {:induction false} TablesSurviveClears(h: Hashing, s: State, events: seq<Event>)
    requires InvWith(h, s, {}, 0) && (forall e | e in events :: Allowed(e)) && SafeRun(h, s, events)
    ensures var r := RunEvents(h, s, events); InvWith(r.0, r.1, {}, 0)
    decreases |events|
  {
    hide InvWith, Inv, After, Allowed, LookupSafe;
    if events != [] {
      AfterSpec(h, s, events[0]);
      var r := After(h, s, events[0]);
      TablesSurviveClears(r.0, r.1, events[1..]);
    }
  }

  /** A run that clears only while no collision is recorded makes safe lookups only. */
  lemma {:induction false} QuietRunsAreSafe(h: Hashing, s: State, events: seq<Event>)
    requires Inv(h, s) && (forall e | e in events :: Allowed(e)) && QuietRun(h, s, events)
    ensures SafeRun(h, s, events)
    ensures var r := RunEvents(h, s, events); Inv(r.0, r.1)
    decreases |events|
  {
    hide InvWith, Inv, After, Allowed, LookupSafe;
    if events != [] {
      InvGives(h, s);
      AfterSpec(h, s, events[0]);
      if events[0].Select? && events[0].id in s.collisions {
        SoundIsSafe(h, s, events[0].id);
      }
      var r := After(h, s, events[0]);
      QuietRunsAreSafe(r.0, r.1, events[1..]);
    }
  }

  // ----- a stale collision -----

  /** An announcement at time 1, made by the source 0. */
  function Announce(service: Service): Event {
    Do(AddCall(service, 1, {}, 0, 0, 1, true, _ => 0))
  }

  lemma AddFresh(h: Hashing, s: State, service: Service)
    requires service.addr !in s.mapAddr && h.NewSlot(service, 0) !in s.vvNew && s.nIdCount !in s.mapInfo
    ensures var t, id := After(h, s, Announce(service)).1, s.nIdCount;
            && t.mapInfo.Keys == s.mapInfo.Keys + {id} && t.mapInfo[id].service == service && !t.mapInfo[id].fInTried
            && (forall x | x in s.mapInfo :: t.mapInfo[x] == s.mapInfo[x])
            && t.nIdCount == id + 1 && t.mapAddr == s.mapAddr[service.addr := id]
            && t.vvNew == s.vvNew[h.NewSlot(service, 0) := id]
            && t.vvTried == s.vvTried && t.collisions == s.collisions
  {
  }

  lemma GoodFresh(h: Hashing, s: State, id: nat)
    requires InvWith(h, s, {}, 0) && id in s.mapInfo && !s.mapInfo[id].fInTried
    requires h.TriedSlot(s.mapInfo[id].service) !in s.vvTried
    ensures var t := Good(h, s, s.mapInfo[id].service, false, 1);
            && t.mapInfo.Keys == s.mapInfo.Keys
            && (forall x | x in s.mapInfo && x != id :: t.mapInfo[x] == s.mapInfo[x])
            && t.vvTried == s.vvTried[h.TriedSlot(s.mapInfo[id].service) := id]
            && t.collisions == s.collisions
  {
    hide InvWith, InSomeBucket;
    FindSpec(h, s, s.mapInfo[id].service.addr);
    UntriedIsInSomeBucket(h, s, id);
    SameBuckets(h, s, id, 1);
  }

  lemma SameBuckets(h: Hashing, s: State, id: nat, nTime: int)
    requires id in s.mapInfo && InSomeBucket(h, s, id)
    ensures InSomeBucket(h, SetInfo(s.(nLastGood := nTime), id, MarkedGood(s.mapInfo[id], nTime)), id)
  {
    var b :| 0 <= b < h.newBuckets && BucketHolds(h, s.vvNew, s.mapInfo[id].service, b, id);
    var t := SetInfo(s.(nLastGood := nTime), id, MarkedGood(s.mapInfo[id], nTime));
    assert BucketHolds(h, t.vvNew, t.mapInfo[id].service, b, id);
  }

  lemma {:induction false} RunOneMore(h: Hashing, s: State, events: seq<Event>, e: Event)
    ensures var r := RunEvents(h, s, events); RunEvents(h, s, events + [e]) == After(r.0, r.1, e)
    decreases |events|
  {
    hide After;
    if events == [] {
      assert [] + [e] == [e] && [e][1..] == [];
    } else {
      assert (events + [e])[1..] == events[1..] + [e];
      var r := After(h, s, events[0]);
      RunOneMore(r.0, r.1, events[1..], e);
    }
  }

  /** Announces both services and makes the second one tried. */
  function Fill(a: Service, b: Service): seq<Event> {
    [Announce(a)] + [Announce(b)] + [Do(GoodCall(b, false, 1))]
  }

  function NoteCollision(a: Service, b: Service): seq<Event> {
    Fill(a, b) + [Do(GoodCall(a, true, 1))]
  }

  lemma BothAnnounced(h: Hashing, a: Service, b: Service)
    requires h.Ok() && a.addr != b.addr && h.NewSlot(a, 0) != h.NewSlot(b, 0)
    ensures var r := RunEvents(h, Empty, [Announce(a)] + [Announce(b)]);
            && r.0 == h && Inv(h, r.1) && r.1.collisions == {} && r.1.vvTried == map[]
            && 0 in r.1.mapInfo && r.1.mapInfo[0].service == a && !r.1.mapInfo[0].fInTried
            && 1 in r.1.mapInfo && r.1.mapInfo[1].service == b && !r.1.mapInfo[1].fInTried
  {
    hide InvWith, Inv, Step;
    EmptyIsConsistent(h);
    InvGives(h, Empty);
    AddFresh(h, Empty, a);
    AfterSpec(h, Empty, Announce(a));
    var s := After(h, Empty, Announce(a)).1;
    AddFresh(h, s, b);
    AfterSpec(h, s, Announce(b));
    RunOneMore(h, Empty, [], Announce(a));
    assert [] + [Announce(a)] == [Announce(a)];
    RunOneMore(h, Empty, [Announce(a)], Announce(b));
  }

  lemma SlotIsFilled(h: Hashing, a: Service, b: Service)
    requires h.Ok() && a.addr != b.addr && h.NewSlot(a, 0) != h.NewSlot(b, 0)
    ensures var r := RunEvents(h, Empty, Fill(a, b));
            && r.0 == h && Inv(h, r.1) && r.1.collisions == {} && h.TriedSlot(b) in r.1.vvTried
            && 0 in r.1.mapInfo && r.1.mapInfo[0].service == a && !r.1.mapInfo[0].fInTried
  {
    hide InvWith, Inv, Good, RunEvents;
    BothAnnounced(h, a, b);
    var s := RunEvents(h, Empty, [Announce(a)] + [Announce(b)]).1;
    InvGives(h, s);
    GoodFresh(h, s, 1);
    AfterSpec(h, s, Do(GoodCall(b, false, 1)));
    RunOneMore(h, Empty, [Announce(a)] + [Announce(b)], Do(GoodCall(b, false, 1)));
  }

  /** Two services that share a tried slot: the second is made tried, and the first then collides with it. */
  lemma CollisionIsNoted(h: Hashing, a: Service, b: Service)
    requires h.Ok() && a.addr != b.addr
    requires h.TriedSlot(a) == h.TriedSlot(b) && h.NewSlot(a, 0) != h.NewSlot(b, 0)
    ensures var r := RunEvents(h, Empty, NoteCollision(a, b)); r.0 == h && r.1.collisions == {0}
  {
    hide InvWith, Inv, Good, RunEvents, Fill;
    SlotIsFilled(h, a, b);
    GoodAchieves(h, RunEvents(h, Empty, Fill(a, b)).1, 0, true, 1);
    RunOneMore(h, Empty, Fill(a, b), Do(GoodCall(a, true, 1)));
  }

  /**
   Clearing after a noted collision and announcing any service reuses the colliding id with every tried
   slot empty: the next lookup is not safe.
   */
  lemma StaleCollision(h: Hashing, g: Hashing, a: Service, b: Service, c: Service)
    requires h.Ok() && g.Ok() && a.addr != b.addr
    requires h.TriedSlot(a) == h.TriedSlot(b) && h.NewSlot(a, 0) != h.NewSlot(b, 0)
    ensures var events := NoteCollision(a, b) + [Clear(g)] + [Announce(c)];
            && (forall e | e in events :: Allowed(e))
            && var r := RunEvents(h, Empty, events);
               r.0 == g && 0 in r.1.collisions && !LookupSafe(g, r.1, 0)
  {
    hide Add;
    CollisionIsNoted(h, a, b);
    var s := RunEvents(h, Empty, NoteCollision(a, b)).1;
    RunOneMore(h, Empty, NoteCollision(a, b), Clear(g));
    RunOneMore(h, Empty, NoteCollision(a, b) + [Clear(g)], Announce(c));
    AddFresh(g, AfterClear(s), c);
  }

  // ----- exactly when lookups stay safe -----

  /** An announcement without a time, which any later newcomer may displace. */
  function Stale(addr: nat): Event {
    Do(AddCall(Service(addr, 0), 0, {}, 0, 0, 1, true, _ => 0))
  }

  function Crowd(n: nat): seq<Event> {
    if n == 0 then [] else Crowd(n - 1) + [Stale(n - 1)]
  }

  /** All entries have been announced without a time, from addresses below `n`, and nothing has been tried. */
  ghost predicate Crowded(s: State, n: nat, collisions: set<nat>) {
    && s.nIdCount == n && s.vvTried == map[] && s.collisions == collisions
    && (forall a | a in s.mapAddr :: a < n)
    && (forall id | id in s.mapInfo :: s.mapInfo[id].nTime == 0 && s.mapInfo[id].nLastTry == 0)
  }

  /** What making room for a newcomer leaves alone. */
  ghost predicate Undisturbed(s: State, t: State) {
    && t.nIdCount == s.nIdCount && t.vvTried == s.vvTried && t.collisions == s.collisions
    && t.mapAddr.Keys <= s.mapAddr.Keys
    && (forall id | id in t.mapInfo ::
          id in s.mapInfo && t.mapInfo[id].nTime == s.mapInfo[id].nTime
          && t.mapInfo[id].nLastTry == s.mapInfo[id].nLastTry)
  }

  lemma SwapUndisturbed(s: State, i: nat, j: nat)
    ensures Undisturbed(s, SwapRandom(s, i, j))
  {
  }

  lemma DeleteUndisturbed(s: State, id: nat)
    ensures Undisturbed(s, Delete(s, id))
  {
    if id in s.mapInfo && s.vRandom != [] {
      SwapUndisturbed(s, s.mapInfo[id].nRandomPos, |s.vRandom| - 1);
      hide SwapRandom;
    }
  }

  lemma ClearNewUndisturbed(s: State, k: Slot)
    ensures Undisturbed(s, ClearNew(s, k))
  {
    hide Delete;
    if k in s.vvNew && s.vvNew[k] in s.mapInfo {
      DeleteUndisturbed(DropSlot(s, k), s.vvNew[k]);
    }
  }

  lemma TakeUndisturbed(s: State, id: nat, k: Slot)
    requires id in s.mapInfo
    ensures Undisturbed(s, Take(s, id, k))
  {
  }

  lemma UndisturbedTwice(s: State, t: State, u: State)
    requires Undisturbed(s, t) && Undisturbed(t, u)
    ensures Undisturbed(s, u)
  {
  }

  lemma PlaceUndisturbed(h: Hashing, s: State, id: nat, source: NetAddr, now: int)
    requires id in s.mapInfo
    ensures Undisturbed(s, Place(h, s, id, source, now))
  {
    assert Undisturbed(s, s);
    hide ClearNew, Delete, Take, MayInsert, Undisturbed;
    var k := h.NewSlot(s.mapInfo[id].service, source);
    ClearNewUndisturbed(s, k);
    var c := ClearNew(s, k);
    if id in c.mapInfo {
      TakeUndisturbed(c, id, k);
      UndisturbedTwice(s, c, Take(c, id, k));
    }
    DeleteUndisturbed(s, id);
  }

  /** The newcomer's entry, before it looks for a slot. */
  function Arrived(s: State, n: nat): State {
    var c := Create(s, Service(n, 0), 0, {}, 0);
    c.(nNew := c.nNew + 1)
  }

  lemma StaleIsPlaced(h: Hashing, s: State, n: nat)
    requires s.nIdCount == n && n !in s.mapAddr
    ensures n in Arrived(s, n).mapInfo && After(h, s, Stale(n)).1 == Place(h, Arrived(s, n), n, 0, 1)
  {
    hide Place;
  }

  lemma StaleMayInsert(s: State, n: nat, collisions: set<nat>, k: Slot)
    requires Crowded(s, n, collisions)
    ensures var t := Arrived(s, n);
            && n in t.mapInfo && t.mapInfo[n].service == Service(n, 0)
            && MayInsert(t, n, k, 1)
  {
  }

  lemma StaleIsCrowded(s: State, n: nat, collisions: set<nat>, t: State)
    requires Crowded(s, n, collisions) && Undisturbed(Arrived(s, n), t)
    ensures Crowded(t, n + 1, collisions) && n !in s.mapAddr
  {
  }

  /** One more announcement without a time is let in, under any hash. */
  lemma StaleJoins(h: Hashing, s: State, n: nat, collisions: set<nat>)
    requires InvWith(h, s, {}, 0) && Crowded(s, n, collisions)
    ensures var t := After(h, s, Stale(n)).1; Crowded(t, n + 1, collisions) && n in t.mapInfo
  {
    hide *;
    var t := Arrived(s, n);
    StaleMayInsert(s, n, collisions, h.NewSlot(Service(n, 0), 0));
    PlaceUndisturbed(h, t, n, 0, 1);
    StaleIsCrowded(s, n, collisions, Place(h, t, n, 0, 1));
    CrowdedIds(s, n, collisions);
    StaleIsPlaced(h, s, n);
    ArrivedIsPlaceable(h, s, n);
    PlaceAchieves(h, t, n, 0, 1);
  }

  lemma CrowdedIds(s: State, n: nat, collisions: set<nat>)
    requires Crowded(s, n, collisions)
    ensures s.nIdCount == n && s.vvTried == map[] && s.collisions == collisions
  {
  }

  lemma ArrivedIsPlaceable(h: Hashing, s: State, n: nat)
    requires InvWith(h, s, {}, 0) && s.nIdCount == n && n !in s.mapAddr
    ensures Placeable(h, Arrived(s, n), n)
  {
    hide InvWith, Placeable;
    CreatedIsPlaceable(h, s, Service(n, 0), 0, {}, 0);
  }

  ghost predicate Plain(events: seq<Event>) {
    forall e | e in events :: Allowed(e) && !e.Clear?
  }

  lemma {:induction false} CrowdIsPlain(n: nat)
    ensures Plain(Crowd(n))
  {
    if n > 0 {
      CrowdIsPlain(n - 1);
    }
  }

  lemma ClearedIsCrowded(g: Hashing, s: State)
    requires g.Ok()
    ensures InvWith(g, AfterClear(s), {}, 0) && Crowded(AfterClear(s), 0, s.collisions)
  {
    hide InvWith;
    ClearKeepsInvIff(g, s);
  }

  lemma {:induction false} CrowdGathers(g: Hashing, s: State, n: nat)
    requires g.Ok()
    ensures var r := RunEvents(g, AfterClear(s), Crowd(n));
            && r.0 == g && InvWith(g, r.1, {}, 0) && Crowded(r.1, n, s.collisions)
            && (n > 0 ==> n - 1 in r.1.mapInfo)
  {
    hide InvWith, Inv, Crowded, AfterClear, Step;
    if n == 0 {
      ClearedIsCrowded(g, s);
    } else {
      CrowdGathers(g, s, n - 1);
      hide RunEvents;
      var r := RunEvents(g, AfterClear(s), Crowd(n - 1));
      StaleJoins(g, r.1, n - 1, s.collisions);
      AfterSpec(g, r.1, Stale(n - 1));
      RunOneMore(g, AfterClear(s), Crowd(n - 1), Stale(n - 1));
    }
  }

  /** A safe run ends in a safe lookup, if it ends in one. */
  lemma {:induction false} LastLookupSafe(h: Hashing, s: State, events: seq<Event>, id: nat)
    requires SafeRun(h, s, events + [Select(id)])
    ensures var r := RunEvents(h, s, events); id in r.1.collisions ==> LookupSafe(r.0, r.1, id)
    decreases |events|
  {
    hide After, LookupSafe;
    if events == [] {
      assert [] + [Select(id)] == [Select(id)];
    } else {
      assert (events + [Select(id)])[1..] == events[1..] + [Select(id)];
      var r := After(h, s, events[0]);
      LastLookupSafe(r.0, r.1, events[1..], id);
    }
  }

  /** The run in which a recorded collision meets its id again, with its tried slot empty. */
  lemma StaleCollisionShows(g: Hashing, s: State, id: nat)
    requires g.Ok() && id in s.collisions
    ensures var events := Crowd(id + 1) + [Select(id)];
            Plain(events) && !SafeRun(g, AfterClear(s), events)
  {
    hide *;
    CrowdIsPlain(id + 1);
    PlainSelect(Crowd(id + 1), id);
    CrowdGathers(g, s, id + 1);
    var t := RunEvents(g, AfterClear(s), Crowd(id + 1)).1;
    CrowdedIds(t, id + 1, s.collisions);
    UntriedIsUnsafe(g, t, id);
    if SafeRun(g, AfterClear(s), Crowd(id + 1) + [Select(id)]) {
      LastLookupSafe(g, AfterClear(s), Crowd(id + 1), id);
    }
  }

  lemma PlainSelect(events: seq<Event>, id: nat)
    requires Plain(events)
    ensures Plain(events + [Select(id)])
  {
  }

  lemma UntriedIsUnsafe(h: Hashing, s: State, id: nat)
    requires id in s.mapInfo && s.vvTried == map[]
    ensures !LookupSafe(h, s, id)
  {
  }

  lemma {:induction false} PlainIsQuiet(h: Hashing, s: State, events: seq<Event>)
    requires Plain(events)
    ensures QuietRun(h, s, events)
    decreases |events|
  {
    hide After, Allowed;
    if events != [] {
      var r := After(h, s, events[0]);
      PlainIsQuiet(r.0, r.1, events[1..]);
    }
  }

  /**
   After a clear, every run up to the next one makes safe lookups only if and only if no collision was
   recorded when the tables were cleared, whatever the new key.
   */
  lemma LookupsStaySafeIff(g: Hashing, s: State)
    requires g.Ok()
    ensures (forall events | Plain(events) :: SafeRun(g, AfterClear(s), events)) <==> s.collisions == {}
  {
    ClearKeepsInvIff(g, s);
    hide Inv, InvWith, AfterClear, SafeRun, Crowd;
    if s.collisions == {} {
      forall events | Plain(events) ensures SafeRun(g, AfterClear(s), events) {
        PlainIsQuiet(g, AfterClear(s), events);
        QuietRunsAreSafe(g, AfterClear(s), events);
      }
    } else {
      var id :| id in s.collisions;
      StaleCollisionShows(g, s, id);
    }
  }
}
