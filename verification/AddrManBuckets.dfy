/**
 The bucket hashes of the address manager, `src/addrman.cpp`, and what they are for (the design goals in
 `src/addrman.h`): however a peer goes about it, one address range holds at most 8 of the 256 tried buckets, and
 announcements from one range of sources reach at most 64 of the 1024 new buckets and no tried slot.
 */
module AddrManBuckets {
  import opened AddrManSpec
  import opened AddrManOps
  import opened AddrManLaws
  import opened Arithmetic

  /** The secret key, the hash of a list, the range an address is in, and the bytes of a service as one number. */
  datatype Keyed = Keyed(key: nat, hash: seq<nat> -> nat, group: NetAddr -> nat, code: Service -> nat) {
    function TriedBucket(s: Service): nat {
      hash([key, group(s.addr), hash([key, code(s)]) % 8]) % 256
    }

    function NewBucket(s: Service, src: NetAddr): nat {
      hash([key, group(src), hash([key, group(s.addr), group(src)]) % 64]) % 1024
    }

    /** The letters that go into the hash tell the two tables apart. */
    function Position(fNew: bool, bucket: nat, s: Service): nat {
      hash([key, if fNew then 'N' as nat else 'K' as nat, bucket, code(s)]) % 64
    }

    function ToHashing(): (h: Hashing)
      ensures h.Ok() && h.newBuckets == 1024
    {
      Hashing(key, 1024, s => TriedBucket(s), (s, src) => NewBucket(s, src), (fNew, b, s) => Position(fNew, b, s))
    }
  }

  // ----- sets of slots -----

  /** The slots of a set of buckets. */
  ghost function SlotsIn(buckets: set<nat>): set<Slot> {
    set b, p: nat | b in buckets && p < 64 :: Slot(b, p)
  }

  lemma {:induction false} SlotsInSize(buckets: set<nat>)
    ensures |SlotsIn(buckets)| == 64 * |buckets|
    decreases |buckets|
  {
    if buckets == {} {
      assert SlotsIn({}) == {};
    } else {
      var b :| b in buckets;
      var rest := buckets - {b};
      SlotsInSize(rest);
      assert SlotsIn(buckets) == SlotsIn(rest) + OwnSlots(b, 64) && SlotsIn(rest) !! OwnSlots(b, 64);
      OwnSize(b, 64);
    }
  }

  ghost function OwnSlots(b: nat, n: nat): set<Slot> {
    set p: nat | p < n :: Slot(b, p)
  }

  lemma {:induction false} OwnSize(b: nat, n: nat)
    ensures |OwnSlots(b, n)| == n
  {
    if n > 0 {
      OwnSize(b, n - 1);
      assert OwnSlots(b, n) == OwnSlots(b, n - 1) + {Slot(b, n - 1)};
    }
  }

  /** The buckets out of `m` that `n` numbers give a range. */
  ghost function Buckets(k: Keyed, g: nat, n: nat, m: nat): set<nat>
    requires m > 0
  {
    set i: nat | i < n :: k.hash([k.key, g, i]) % m
  }

  lemma {:induction false} BucketsSize(k: Keyed, g: nat, n: nat, m: nat)
    requires m > 0
    ensures |Buckets(k, g, n, m)| <= n && forall b | b in Buckets(k, g, n, m) :: b < m
  {
    if n > 0 {
      BucketsSize(k, g, n - 1, m);
      assert Buckets(k, g, n, m) == Buckets(k, g, n - 1, m) + {k.hash([k.key, g, n - 1]) % m};
    }
  }

  lemma {:induction false} InjectionSize(ids: set<nat>, slot: nat -> Slot, slots: set<Slot>)
    requires forall x | x in ids :: slot(x) in slots
    requires forall x, y | x in ids && y in ids && slot(x) == slot(y) :: x == y
    ensures |ids| <= |slots|
    decreases |ids|
  {
    if ids != {} {
      var x :| x in ids;
      InjectionSize(ids - {x}, slot, slots - {slot(x)});
    }
  }

  // ----- the tried table -----

  /** The tried buckets of an address range. */
  ghost function TriedBuckets(k: Keyed, g: nat): set<nat> {
    Buckets(k, g, 8, 256)
  }

  lemma TriedSlotIn(k: Keyed, s: Service)
    ensures k.ToHashing().TriedSlot(s) in SlotsIn(TriedBuckets(k, k.group(s.addr)))
  {
    var i := k.hash([k.key, k.code(s)]) % 8;
    assert k.TriedBucket(s) == k.hash([k.key, k.group(s.addr), i]) % 256;
    assert k.TriedBucket(s) in TriedBuckets(k, k.group(s.addr));
  }

  /** The tried entries of an address range. */
  ghost function TriedOf(k: Keyed, s: State, g: nat): set<nat> {
    set id | id in s.mapInfo && s.mapInfo[id].fInTried && k.group(s.mapInfo[id].service.addr) == g
  }

  lemma TriedSlotsDiffer(h: Hashing, s: State, x: nat, y: nat)
    requires InvWith(h, s, {}, 0) && x in TriedIds(s.mapInfo) && y in TriedIds(s.mapInfo)
    requires h.TriedSlot(s.mapInfo[x].service) == h.TriedSlot(s.mapInfo[y].service)
    ensures x == y
  {
    hide IndexOk, AddrOk, NewOk, TimesOk;
  }

  function SlotOf(h: Hashing, s: State, id: nat): Slot {
    if id in s.mapInfo then h.TriedSlot(s.mapInfo[id].service) else Slot(0, 0)
  }

  /** Consistent tables, so those after any run, hold at most 512 tried entries of any one address range. */
  lemma TriedPerRange(k: Keyed, s: State, g: nat)
    requires InvWith(k.ToHashing(), s, {}, 0)
    ensures |TriedOf(k, s, g)| <= 512
  {
    hide InvWith, SlotsIn, Buckets, k.TriedBucket, k.Position;
    var h := k.ToHashing();
    var slots := SlotsIn(TriedBuckets(k, g));
    var ids := TriedOf(k, s, g);
    forall x | x in ids ensures SlotOf(h, s, x) in slots {
      TriedSlotIn(k, s.mapInfo[x].service);
    }
    forall x, y | x in ids && y in ids && SlotOf(h, s, x) == SlotOf(h, s, y) ensures x == y {
      TriedSlotsDiffer(h, s, x, y);
    }
    InjectionSize(ids, (x: nat) => SlotOf(h, s, x), slots);
    SlotsInSize(TriedBuckets(k, g));
    BucketsSize(k, g, 8, 256);
  }

  // ----- the new table -----

  /** The new buckets of a range of sources. */
  ghost function NewBuckets(k: Keyed, g: nat): set<nat> {
    Buckets(k, g, 64, 1024)
  }

  /** The bucket depends on the two ranges only, and is one of those of the source's range. */
  lemma NewSlotIn(k: Keyed, s: Service, src: NetAddr, other: Service, from: NetAddr)
    ensures k.ToHashing().NewSlot(s, src).bucket in NewBuckets(k, k.group(src))
    ensures k.group(s.addr) == k.group(other.addr) && k.group(src) == k.group(from) ==>
              k.ToHashing().NewSlot(s, src).bucket == k.ToHashing().NewSlot(other, from).bucket
  {
    var i := k.hash([k.key, k.group(s.addr), k.group(src)]) % 64;
    assert k.NewBucket(s, src) == k.hash([k.key, k.group(src), i]) % 1024;
    assert k.NewBucket(s, src) in NewBuckets(k, k.group(src));
  }

  lemma PlaceKeepsTried(h: Hashing, s: State, id: nat, source: NetAddr, now: int)
    requires id in s.mapInfo
    ensures Place(h, s, id, source, now).vvTried == s.vvTried
  {
    hide IsTerrible, SwapRandom;
    SwapKeepsTried(s);
    SwapKeepsTried(DropAt(s, h.NewSlot(s.mapInfo[id].service, source)));
  }

  function DropAt(s: State, k: Slot): State {
    if k in s.vvNew && s.vvNew[k] in s.mapInfo then DropSlot(s, k) else s
  }

  lemma SwapKeepsTried(s: State)
    ensures forall i, j :: SwapRandom(s, i, j).vvTried == s.vvTried
  {
  }

  /** Slots outside a bucket are as they were, and so are the tried ones. */
  ghost predicate OnlyIn(s: State, t: State, buckets: set<nat>) {
    && t.vvTried == s.vvTried
    && forall q: Slot | q.bucket !in buckets ::
         (q in t.vvNew <==> q in s.vvNew) && (q in s.vvNew ==> t.vvNew[q] == s.vvNew[q])
  }

  lemma KnownReaches(k: Keyed, s: State, id: nat, c: Call, penalty: int)
    requires InvWith(k.ToHashing(), s, {}, 0) && c.AddCall?
    requires id in s.mapInfo && s.mapInfo[id].service.addr == c.service.addr
    ensures
      var t := AddKnown(k.ToHashing(), s, id, c.nTime, c.nServices, c.source, penalty, c.now, c.draw);
      OnlyIn(s, t, {k.NewBucket(c.service, c.source)})
  {
    hide InvWith, Place, Takes, Reannounced, IsTerrible;
    var h := k.ToHashing();
    KnownAchieves(h, s, id, c.nTime, c.nServices, c.source, penalty, c.now, c.draw);
    NewSlotIn(k, s.mapInfo[id].service, c.source, c.service, c.source);
    var a := Reannounced(s.mapInfo[id], c.nTime, c.nServices, penalty, c.now);
    PlaceKeepsTried(h, SetInfo(s, id, a), id, c.source, c.now);
  }

  lemma UnknownReaches(k: Keyed, s: State, c: Call, penalty: int)
    requires InvWith(k.ToHashing(), s, {}, 0) && c.AddCall? && Find(s, c.service.addr).None?
    ensures
      var t := AddUnknown(k.ToHashing(), s, c.service, c.nTime, c.nServices, c.source, penalty, c.now);
      OnlyIn(s, t, {k.NewBucket(c.service, c.source)})
  {
    hide InvWith, Place, IsTerrible, Find;
    var h := k.ToHashing();
    UnknownAchieves(h, s, c.service, c.nTime, c.nServices, c.source, penalty, c.now);
    var n := Create(s, c.service, Max(0, c.nTime - penalty), c.nServices, c.source);
    PlaceKeepsTried(h, n.(nNew := n.nNew + 1), s.nIdCount, c.source, c.now);
  }

  /** An announcement changes one new bucket, if any, which the two ranges select, and no tried slot. */
  lemma AddReaches(k: Keyed, s: State, c: Call)
    requires InvWith(k.ToHashing(), s, {}, 0) && c.AddCall?
    ensures OnlyIn(s, Step(k.ToHashing(), s, c), {k.NewBucket(c.service, c.source)})
  {
    var h := k.ToHashing();
    assert OnlyIn(s, s, {k.NewBucket(c.service, c.source)});
    hide InvWith, Find, AddKnown, AddUnknown, OnlyIn, k.NewBucket;
    if c.routable {
      FindSpec(h, s, c.service.addr);
      var penalty := if c.service.addr == c.source then 0 else c.penalty;
      match Find(s, c.service.addr) {
        case Some(id) => KnownReaches(k, s, id, c, penalty);
        case None => UnknownReaches(k, s, c, penalty);
      }
    }
  }

  lemma OnlyInTwice(s: State, t: State, u: State, b: nat, buckets: set<nat>)
    requires OnlyIn(s, t, {b}) && b in buckets && OnlyIn(t, u, buckets)
    ensures OnlyIn(s, u, buckets)
  {
  }

  lemma NewBucketIn(k: Keyed, s: Service, src: NetAddr)
    ensures k.NewBucket(s, src) in NewBuckets(k, k.group(src))
  {
    NewSlotIn(k, s, src, s, src);
  }

  /**
   However many addresses the sources of one range announce, and in whatever order, at most 64 of the 1024 new
   buckets change, and no tried slot does.
   */
  lemma {:induction false} AnnouncementsReach(k: Keyed, s: State, calls: seq<Call>, g: nat)
    requires InvWith(k.ToHashing(), s, {}, 0)
    requires forall i | 0 <= i < |calls| :: calls[i].AddCall? && k.group(calls[i].source) == g
    ensures OnlyIn(s, Run(k.ToHashing(), s, calls), NewBuckets(k, g)) && |NewBuckets(k, g)| <= 64
    decreases |calls|
  {
    hide InvWith, Step, Keeps, Buckets, OnlyIn, k.NewBucket, k.ToHashing;
    BucketsSize(k, g, 64, 1024);
    if calls == [] {
      NothingChanges(s, NewBuckets(k, g));
    } else {
      var h, c := k.ToHashing(), calls[0];
      AddReaches(k, s, c);
      StepKeepsTables(h, s, c);
      NewBucketIn(k, c.service, c.source);
      var t := Step(h, s, c);
      AnnouncementsReach(k, t, calls[1..], g);
      OnlyInTwice(s, t, Run(h, t, calls[1..]), k.NewBucket(c.service, c.source), NewBuckets(k, g));
    }
  }

  lemma NothingChanges(s: State, buckets: set<nat>)
    ensures OnlyIn(s, s, buckets)
  {
  }

  lemma StepKeepsTables(h: Hashing, s: State, c: Call)
    requires InvWith(h, s, {}, 0) && c.AddCall?
    ensures InvWith(h, Step(h, s, c), {}, 0)
  {
    hide InvWith, Step;
    StepSpec(h, s, c);
  }

  /** After any run of calls from the cleared tables, no address range has more than 512 tried entries. */
  lemma RunsKeepRangesApart(k: Keyed, calls: seq<Call>, g: nat)
    requires forall c | c in calls :: LegalCall(c)
    ensures |TriedOf(k, Run(k.ToHashing(), Empty, calls), g)| <= 512
  {
    hide InvWith, Run, TriedOf, LegalCall;
    var h := k.ToHashing();
    EmptyIsConsistent(h);
    RunSpec(h, Empty, calls);
    TriedPerRange(k, Run(h, Empty, calls), g);
  }
}
