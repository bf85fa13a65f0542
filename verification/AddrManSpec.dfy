/**
 The address manager of `src/addrman.cpp`, as values: an id table, an address index, a random order and
 two bucketed tables that must stay mutually consistent.

 Bucket hashes are parameters; a table is a map from slots to ids, where an absent slot is the code's -1.
 Random draws and the clock are arguments.  The invariant states what `Check_` tests, and more exactly:
 it is relative to a set of ids "in transit" (in neither table) so that it also describes the states in
 the middle of a move.
 */
module AddrManSpec {
  import opened Options

  type NetAddr = nat

  datatype Service = Service(addr: NetAddr, port: nat)

  datatype Slot = Slot(bucket: nat, pos: nat)

  datatype AddrInfo = AddrInfo(
    service: Service,
    nTime: int,
    nServices: set<nat>,
    source: NetAddr,
    nLastTry: int,
    nLastCountAttempt: int,
    nLastSuccess: int,
    nAttempts: nat,
    nRefCount: int,
    fInTried: bool,
    nRandomPos: nat
  )

  const NEW_BUCKETS_PER_ADDRESS: nat := 8
  const SET_TRIED_COLLISION_SIZE: nat := 10

  /** The key, 0 when it is null, the bucket hashes it gives, and the number of new buckets. */
  datatype Hashing = Hashing(
    key: nat,
    newBuckets: nat,
    triedBucket: Service -> nat,
    newBucket: (Service, NetAddr) -> nat,
    position: (bool, nat, Service) -> nat
  ) {
    ghost predicate Ok() {
      newBuckets > 0 && forall s, src :: newBucket(s, src) < newBuckets
    }

    function TriedSlot(s: Service): Slot {
      var b := triedBucket(s);
      Slot(b, position(false, b, s))
    }

    function NewSlotIn(s: Service, bucket: nat): Slot {
      Slot(bucket, position(true, bucket, s))
    }

    function NewSlot(s: Service, src: NetAddr): Slot {
      NewSlotIn(s, newBucket(s, src))
    }
  }

  type InfoMap = map<nat, AddrInfo>

  type Table = map<Slot, nat>

  datatype State = State(
    nIdCount: nat,
    mapInfo: InfoMap,
    mapAddr: map<NetAddr, nat>,
    vRandom: seq<nat>,
    nTried: int,
    vvTried: Table,
    nNew: int,
    vvNew: Table,
    nLastGood: int,
    collisions: set<nat>
  )

  const Empty := State(0, map[], map[], [], 0, map[], 0, map[], 1, {})

  // ----- the invariant -----

  /** `vRandom` lists every id once, and each entry knows its place in it. */
  ghost predicate IndexOk(m: InfoMap, vRandom: seq<nat>) {
    && (forall i | 0 <= i < |vRandom| :: vRandom[i] in m && m[vRandom[i]].nRandomPos == i)
    && (forall id | id in m :: m[id].nRandomPos < |vRandom| && vRandom[m[id].nRandomPos] == id)
  }

  /** `mapAddr` is the inverse of `mapInfo`, and ids are handed out in order. */
  ghost predicate AddrOk(m: InfoMap, mapAddr: map<NetAddr, nat>, nIdCount: nat) {
    && (forall id | id in m :: id < nIdCount && m[id].service.addr in mapAddr && mapAddr[m[id].service.addr] == id)
    && (forall a | a in mapAddr :: mapAddr[a] in m && m[mapAddr[a]].service.addr == a)
  }

  ghost function TriedIds(m: InfoMap): set<nat> {
    set id | id in m && m[id].fInTried
  }

  ghost function NewIds(m: InfoMap, transit: set<nat>): set<nat> {
    set id | id in m && !m[id].fInTried && id !in transit
  }

  ghost function SlotsOf(t: Table, id: nat): set<Slot> {
    set k | k in t && t[k] == id
  }

  ghost predicate TriedSlotsOk(h: Hashing, m: InfoMap, t: Table) {
    && (forall k | k in t :: t[k] in m && m[t[k]].fInTried && h.TriedSlot(m[t[k]].service) == k)
    && (forall id | id in m && m[id].fInTried ::
          h.TriedSlot(m[id].service) in t && t[h.TriedSlot(m[id].service)] == id)
  }

  /** The tried table holds exactly the tried entries, each at its hash slot. */
  ghost predicate TriedOk(h: Hashing, m: InfoMap, t: Table, nTried: int) {
    TriedSlotsOk(h, m, t) && nTried == |TriedIds(m)|
  }

  /** A new slot holds an untried entry that is not in transit, at its hash position in that bucket. */
  ghost predicate NewSlotsOk(h: Hashing, m: InfoMap, t: Table, transit: set<nat>) {
    forall k | k in t ::
      && t[k] in m && !m[t[k]].fInTried && t[k] !in transit
      && k.bucket < h.newBuckets && h.NewSlotIn(m[t[k]].service, k.bucket) == k
  }

  /** Reference counts count new slots. */
  ghost predicate RefsOk(m: InfoMap, t: Table) {
    forall id | id in m :: m[id].nRefCount == |SlotsOf(t, id)|
  }

  ghost predicate NewCountOk(m: InfoMap, nNew: int, transit: set<nat>, surplus: int) {
    && (forall id | id in NewIds(m, transit) :: 1 <= m[id].nRefCount <= NEW_BUCKETS_PER_ADDRESS)
    && nNew == |NewIds(m, transit)| + surplus
  }

  /**
   The new table holds exactly the untried entries that are not in transit, each as often as its
   reference count says.  `surplus` is how far `nNew` runs ahead of the number of such entries.
   */
  ghost predicate NewOk(h: Hashing, m: InfoMap, t: Table, nNew: int, transit: set<nat>, surplus: int) {
    NewSlotsOk(h, m, t, transit) && RefsOk(m, t) && NewCountOk(m, nNew, transit, surplus)
  }

  ghost predicate TimesOk(m: InfoMap) {
    forall id | id in m :: m[id].nLastTry >= 0 && m[id].nLastSuccess >= 0 && (m[id].fInTried ==> m[id].nLastSuccess > 0)
  }

  /** Every recorded collision that still exists has an occupied tried slot. */
  ghost predicate CollisionsOk(h: Hashing, m: InfoMap, vvTried: Table, nIdCount: nat, collisions: set<nat>) {
    && |collisions| <= SET_TRIED_COLLISION_SIZE
    && (forall id | id in collisions :: id < nIdCount && (id in m ==> h.TriedSlot(m[id].service) in vvTried))
  }

  ghost predicate InvWith(h: Hashing, s: State, transit: set<nat>, surplus: int) {
    && h.Ok()
    && (forall id | id in transit :: id in s.mapInfo && !s.mapInfo[id].fInTried)
    && IndexOk(s.mapInfo, s.vRandom)
    && AddrOk(s.mapInfo, s.mapAddr, s.nIdCount)
    && TriedOk(h, s.mapInfo, s.vvTried, s.nTried)
    && NewOk(h, s.mapInfo, s.vvNew, s.nNew, transit, surplus)
    && TimesOk(s.mapInfo)
  }

  ghost predicate Inv(h: Hashing, s: State) {
    InvWith(h, s, {}, 0) && CollisionsOk(h, s.mapInfo, s.vvTried, s.nIdCount, s.collisions)
  }

  lemma EmptyIsConsistent(h: Hashing)
    requires h.Ok()
    ensures Inv(h, Empty)
  {
  }

  /** The size test of `Check_`: the random order has as many places as the two counters say. */
  lemma SizesAgree(h: Hashing, s: State)
    requires InvWith(h, s, {}, 0)
    ensures |s.vRandom| == s.nTried + s.nNew == |s.mapInfo|
  {
    OrderSize(s.mapInfo, s.vRandom, |s.vRandom|);
    OrderIsAll(s.mapInfo, s.vRandom);
    KindsPartition(s.mapInfo);
  }

  lemma KindsPartition(m: InfoMap)
    ensures |TriedIds(m)| + |NewIds(m, {})| == |m|
  {
    assert m.Keys == TriedIds(m) + NewIds(m, {});
    assert TriedIds(m) !! NewIds(m, {});
    assert |m.Keys| == |m|;
  }

  ghost function Firsts(vRandom: seq<nat>, n: nat): set<nat>
    requires n <= |vRandom|
  {
    set i | 0 <= i < n :: vRandom[i]
  }

  lemma OrderIsAll(m: InfoMap, vRandom: seq<nat>)
    requires IndexOk(m, vRandom)
    ensures Firsts(vRandom, |vRandom|) == m.Keys
  {
    forall id | id in m ensures id in Firsts(vRandom, |vRandom|) {
      assert vRandom[m[id].nRandomPos] == id;
    }
  }

  lemma {:induction false} OrderSize(m: InfoMap, vRandom: seq<nat>, n: nat)
    requires IndexOk(m, vRandom) && n <= |vRandom|
    ensures |Firsts(vRandom, n)| == n
    ensures n < |vRandom| ==> vRandom[n] !in Firsts(vRandom, n)
  {
    if n > 0 {
      OrderSize(m, vRandom, n - 1);
      assert Firsts(vRandom, n) == Firsts(vRandom, n - 1) + {vRandom[n - 1]};
    } else {
      assert Firsts(vRandom, 0) == {};
    }
    if n < |vRandom| {
      forall i | 0 <= i < n ensures vRandom[i] != vRandom[n] {
        assert m[vRandom[i]].nRandomPos == i && m[vRandom[n]].nRandomPos == n;
      }
    }
  }

  // ----- primitives -----

  function Find(s: State, a: NetAddr): Option<nat> {
    if a in s.mapAddr && s.mapAddr[a] in s.mapInfo then Some(s.mapAddr[a]) else None
  }

  function NewInfo(service: Service, nTime: int, nServices: set<nat>, source: NetAddr, pos: nat): AddrInfo {
    AddrInfo(service, nTime, nServices, source, 0, 0, 0, 0, 0, false, pos)
  }

  function Create(s: State, service: Service, nTime: int, nServices: set<nat>, source: NetAddr): State {
    var id := s.nIdCount;
    s.(nIdCount := id + 1,
       mapInfo := s.mapInfo[id := NewInfo(service, nTime, nServices, source, |s.vRandom|)],
       mapAddr := s.mapAddr[service.addr := id],
       vRandom := s.vRandom + [id])
  }

  /** The asserted cases only; the others are shown unreachable where it is called. */
  function SwapRandom(s: State, i: nat, j: nat): State {
    if i == j || i >= |s.vRandom| || j >= |s.vRandom| || s.vRandom[i] !in s.mapInfo || s.vRandom[j] !in s.mapInfo then s
    else
      var a, b := s.vRandom[i], s.vRandom[j];
      var m := s.mapInfo[a := s.mapInfo[a].(nRandomPos := j)];
      s.(mapInfo := m[b := m[b].(nRandomPos := i)], vRandom := s.vRandom[i := b][j := a])
  }

  function Delete(s: State, id: nat): State {
    if id !in s.mapInfo || s.vRandom == [] then s
    else
      var t := SwapRandom(s, s.mapInfo[id].nRandomPos, |s.vRandom| - 1);
      t.(vRandom := t.vRandom[..|t.vRandom| - 1],
         mapAddr := t.mapAddr - {s.mapInfo[id].service.addr},
         mapInfo := t.mapInfo - {id},
         nNew := t.nNew - 1)
  }

  function SetInfo(s: State, id: nat, info: AddrInfo): State {
    s.(mapInfo := s.mapInfo[id := info])
  }

  /** Empties a slot of the new table, deleting the entry that was there when it was its last slot. */
  function ClearNew(s: State, k: Slot): State {
    if k !in s.vvNew || s.vvNew[k] !in s.mapInfo then s
    else
      var t := DropSlot(s, k);
      if t.mapInfo[s.vvNew[k]].nRefCount == 0 then Delete(t, s.vvNew[k]) else t
  }

  function DropSlot(s: State, k: Slot): State
    requires k in s.vvNew && s.vvNew[k] in s.mapInfo
  {
    var id := s.vvNew[k];
    SetInfo(s, id, s.mapInfo[id].(nRefCount := s.mapInfo[id].nRefCount - 1)).(vvNew := s.vvNew - {k})
  }

  // ----- what the primitives keep -----

  /** Two id tables that differ only in the statistics and the order of their entries. */
  ghost predicate SameShape(m: InfoMap, n: InfoMap) {
    && m.Keys == n.Keys
    && forall id | id in m ::
         m[id].service == n[id].service && m[id].nRefCount == n[id].nRefCount && m[id].fInTried == n[id].fInTried
  }

  /** Equal up to the place in the random order. */
  predicate SameButPlace(a: AddrInfo, b: AddrInfo) {
    a == b.(nRandomPos := a.nRandomPos)
  }

  lemma ShapeKeepsTried(h: Hashing, m: InfoMap, n: InfoMap, t: Table, nTried: int)
    requires TriedOk(h, m, t, nTried) && SameShape(m, n)
    ensures TriedOk(h, n, t, nTried)
  {
    assert TriedIds(m) == TriedIds(n);
  }

  lemma ShapeKeepsNew(h: Hashing, m: InfoMap, n: InfoMap, t: Table, nNew: int, transit: set<nat>, surplus: int)
    requires NewOk(h, m, t, nNew, transit, surplus) && SameShape(m, n)
    ensures NewOk(h, n, t, nNew, transit, surplus)
  {
    assert NewIds(m, transit) == NewIds(n, transit);
  }

  /** Changing statistics and order keeps the invariant as long as the order and the times are sound. */
  lemma ShapeKeepsInv(h: Hashing, s: State, n: InfoMap, v: seq<nat>, transit: set<nat>, surplus: int)
    requires InvWith(h, s, transit, surplus) && SameShape(s.mapInfo, n) && IndexOk(n, v) && TimesOk(n)
    ensures InvWith(h, s.(mapInfo := n, vRandom := v), transit, surplus)
  {
    ShapeKeepsTried(h, s.mapInfo, n, s.vvTried, s.nTried);
    ShapeKeepsNew(h, s.mapInfo, n, s.vvNew, s.nNew, transit, surplus);
  }

  lemma SwapKeepsIndex(s: State, i: nat, j: nat)
    requires IndexOk(s.mapInfo, s.vRandom) && i < |s.vRandom| && j < |s.vRandom|
    ensures var t := SwapRandom(s, i, j);
            && IndexOk(t.mapInfo, t.vRandom)
            && t == s.(mapInfo := t.mapInfo, vRandom := t.vRandom)
            && t.mapInfo.Keys == s.mapInfo.Keys
            && (forall id | id in s.mapInfo :: SameButPlace(t.mapInfo[id], s.mapInfo[id]))
            && t.vRandom == s.vRandom[i := s.vRandom[j]][j := s.vRandom[i]]
  {
    var t := SwapRandom(s, i, j);
    var m, v, n, w := s.mapInfo, s.vRandom, t.mapInfo, t.vRandom;
    if i != j {
      assert m[v[i]].nRandomPos == i && m[v[j]].nRandomPos == j;
      forall id | id in n ensures n[id]
          == m[id].(nRandomPos := if id == v[i] then j else if id == v[j] then i else m[id].nRandomPos) {
      }
      forall id | id in n ensures n[id].nRandomPos < |w| && w[n[id].nRandomPos] == id {
        assert m[id].nRandomPos < |v| && v[m[id].nRandomPos] == id;
      }
      forall k | 0 <= k < |w| ensures w[k] in n && n[w[k]].nRandomPos == k {
        assert w[k] == if k == i then v[j] else if k == j then v[i] else v[k];
        assert v[k] in m && m[v[k]].nRandomPos == k;
      }
    }
  }

  lemma SwapRandomSpec(h: Hashing, s: State, i: nat, j: nat, transit: set<nat>, surplus: int)
    requires InvWith(h, s, transit, surplus) && i < |s.vRandom| && j < |s.vRandom|
    ensures InvWith(h, SwapRandom(s, i, j), transit, surplus)
  {
    SwapKeepsIndex(s, i, j);
    var t := SwapRandom(s, i, j);
    ShapeKeepsInv(h, s, t.mapInfo, t.vRandom, transit, surplus);
  }

  /** An id table with one entry gone, the others changed in place only. */
  ghost predicate Without(m: InfoMap, n: InfoMap, id: nat) {
    && n.Keys == m.Keys - {id}
    && forall x | x in n :: SameButPlace(n[x], m[x])
  }

  lemma WithoutKeepsAddr(m: InfoMap, n: InfoMap, id: nat, mapAddr: map<NetAddr, nat>, nIdCount: nat)
    requires AddrOk(m, mapAddr, nIdCount) && id in m && Without(m, n, id)
    ensures AddrOk(n, mapAddr - {m[id].service.addr}, nIdCount)
  {
  }

  lemma WithoutKeepsTried(h: Hashing, m: InfoMap, n: InfoMap, id: nat, t: Table, nTried: int)
    requires TriedOk(h, m, t, nTried) && id in m && !m[id].fInTried && Without(m, n, id)
    ensures TriedOk(h, n, t, nTried)
  {
    assert TriedIds(n) == TriedIds(m);
  }

  lemma WithoutKeepsNew(h: Hashing, m: InfoMap, n: InfoMap, id: nat, t: Table, nNew: int, transit: set<nat>,
          surplus: int)
    requires NewOk(h, m, t, nNew, transit, surplus) && id in m && id in transit && Without(m, n, id)
    ensures NewOk(h, n, t, nNew - 1, transit - {id}, surplus - 1)
  {
    assert NewIds(n, transit - {id}) == NewIds(m, transit);
  }

  lemma PopKeepsIndex(m: InfoMap, v: seq<nat>)
    requires IndexOk(m, v) && |v| > 0
    ensures IndexOk(m - {v[|v| - 1]}, v[..|v| - 1])
  {
    var last := |v| - 1;
    forall x | x in m - {v[last]} ensures m[x].nRandomPos < last && v[..last][m[x].nRandomPos] == x {
      assert v[m[x].nRandomPos] == x;
    }
    forall i | 0 <= i < last ensures v[i] in m - {v[last]} {
      assert m[v[i]].nRandomPos == i && m[v[last]].nRandomPos == last;
    }
  }

  lemma IndexFinds(m: InfoMap, v: seq<nat>, id: nat)
    requires IndexOk(m, v) && id in m
    ensures m[id].nRandomPos < |v| && v[m[id].nRandomPos] == id
  {
  }

  lemma DeleteKeepsIndex(s: State, id: nat)
    requires IndexOk(s.mapInfo, s.vRandom) && id in s.mapInfo
    ensures var t := Delete(s, id);
            && IndexOk(t.mapInfo, t.vRandom) && Without(s.mapInfo, t.mapInfo, id)
            && t == s.(mapInfo := t.mapInfo, vRandom := t.vRandom, mapAddr := s.mapAddr - {s.mapInfo[id].service.addr},
                nNew := s.nNew - 1)
  {
    hide IndexOk, SwapRandom;
    IndexFinds(s.mapInfo, s.vRandom, id);
    var pos, last := s.mapInfo[id].nRandomPos, |s.vRandom| - 1;
    SwapKeepsIndex(s, pos, last);
    var w := SwapRandom(s, pos, last);
    assert w.vRandom[last] == id;
    PopKeepsIndex(w.mapInfo, w.vRandom);
  }

  /** Deleting an entry in transit. */
  lemma DeleteSpec(h: Hashing, s: State, id: nat, transit: set<nat>, surplus: int)
    requires InvWith(h, s, transit, surplus) && id in transit
    ensures InvWith(h, Delete(s, id), transit - {id}, surplus - 1)
    ensures Without(s.mapInfo, Delete(s, id).mapInfo, id)
  {
    DeleteKeepsIndex(s, id);
    var t := Delete(s, id);
    WithoutKeepsAddr(s.mapInfo, t.mapInfo, id, s.mapAddr, s.nIdCount);
    WithoutKeepsTried(h, s.mapInfo, t.mapInfo, id, s.vvTried, s.nTried);
    WithoutKeepsNew(h, s.mapInfo, t.mapInfo, id, s.vvNew, s.nNew, transit, surplus);
  }

  // ----- changing one entry -----

  /** `n` is `m` with entry `id` replaced by one for the same service at the same place. */
  ghost predicate Changed(m: InfoMap, n: InfoMap, id: nat) {
    && id in m && id in n && n == m[id := n[id]]
    && n[id].service == m[id].service && n[id].nRandomPos == m[id].nRandomPos
  }

  lemma ChangedKeepsIndex(m: InfoMap, n: InfoMap, id: nat, vRandom: seq<nat>)
    requires Changed(m, n, id) && IndexOk(m, vRandom)
    ensures IndexOk(n, vRandom)
  {
    assert forall x | x in n :: n[x].nRandomPos == m[x].nRandomPos;
  }

  lemma ChangedKeepsAddr(m: InfoMap, n: InfoMap, id: nat, mapAddr: map<NetAddr, nat>, nIdCount: nat)
    requires Changed(m, n, id) && AddrOk(m, mapAddr, nIdCount)
    ensures AddrOk(n, mapAddr, nIdCount)
  {
    assert forall x | x in n :: n[x].service == m[x].service;
  }

  lemma ChangedKeepsOrder(m: InfoMap, n: InfoMap, id: nat, vRandom: seq<nat>, mapAddr: map<NetAddr, nat>, nIdCount: nat)
    requires Changed(m, n, id) && IndexOk(m, vRandom) && AddrOk(m, mapAddr, nIdCount)
    ensures IndexOk(n, vRandom) && AddrOk(n, mapAddr, nIdCount)
  {
    hide IndexOk, AddrOk;
    ChangedKeepsIndex(m, n, id, vRandom);
    ChangedKeepsAddr(m, n, id, mapAddr, nIdCount);
  }

  lemma RefsAreNatural(m: InfoMap, t: Table, id: nat)
    requires RefsOk(m, t) && id in m
    ensures m[id].nRefCount >= 0
  {
  }

  lemma ChangedKeepsTimes(m: InfoMap, n: InfoMap, id: nat)
    requires Changed(m, n, id) && TimesOk(m)
    requires n[id].nLastTry >= 0 && n[id].nLastSuccess >= 0 && (n[id].fInTried ==> n[id].nLastSuccess > 0)
    ensures TimesOk(n)
  {
  }

  lemma ChangedKeepsTried(h: Hashing, m: InfoMap, n: InfoMap, id: nat, t: Table, nTried: int)
    requires Changed(m, n, id) && n[id].fInTried == m[id].fInTried && TriedOk(h, m, t, nTried)
    ensures TriedOk(h, n, t, nTried)
  {
    assert forall x | x in n :: n[x].fInTried == m[x].fInTried && n[x].service == m[x].service;
    assert TriedIds(m) == TriedIds(n);
  }

  lemma SlotsAfterDrop(t: Table, k: Slot, x: nat)
    requires k in t
    ensures |SlotsOf(t - {k}, x)| == |SlotsOf(t, x)| - if t[k] == x then 1 else 0
  {
    assert SlotsOf(t - {k}, x) == if t[k] == x then SlotsOf(t, x) - {k} else SlotsOf(t, x);
  }

  lemma SlotsAfterTake(t: Table, k: Slot, id: nat, x: nat)
    requires k !in t
    ensures |SlotsOf(t[k := id], x)| == |SlotsOf(t, x)| + if id == x then 1 else 0
  {
    assert SlotsOf(t[k := id], x) == if id == x then SlotsOf(t, x) + {k} else SlotsOf(t, x);
  }

  lemma NoSlots(t: Table, id: nat, k: Slot)
    requires |SlotsOf(t, id)| == 0 && k in t
    ensures t[k] != id
  {
    assert t[k] == id ==> k in SlotsOf(t, id);
  }

  lemma DropKeepsRefs(m: InfoMap, n: InfoMap, t: Table, k: Slot)
    requires RefsOk(m, t) && k in t && Changed(m, n, t[k]) && n[t[k]].nRefCount == m[t[k]].nRefCount - 1
    ensures RefsOk(n, t - {k})
  {
    forall x | x in n ensures n[x].nRefCount == |SlotsOf(t - {k}, x)| {
      SlotsAfterDrop(t, k, x);
      assert x != t[k] ==> n[x] == m[x];
    }
  }

  lemma DropKeepsSlots(h: Hashing, m: InfoMap, n: InfoMap, t: Table, k: Slot, transit: set<nat>, into: set<nat>)
    requires NewSlotsOk(h, m, t, transit) && k in t && Changed(m, n, t[k]) && !n[t[k]].fInTried
    requires into == transit || (into == transit + {t[k]} && |SlotsOf(t - {k}, t[k])| == 0)
    ensures NewSlotsOk(h, n, t - {k}, into)
  {
    var u := t - {k};
    forall q | q in u
      ensures u[q] in n && !n[u[q]].fInTried && u[q] !in into && q.bucket < h.newBuckets
          && h.NewSlotIn(n[u[q]].service, q.bucket) == q
    {
      assert u[q] == t[q];
      if into != transit {
        NoSlots(u, t[k], q);
      }
    }
  }

  /** An untried entry moves into transit. */
  lemma CountIntoTransit(m: InfoMap, n: InfoMap, id: nat, nNew: int, transit: set<nat>, surplus: int)
    requires NewCountOk(m, nNew, transit, surplus) && Changed(m, n, id) && id in NewIds(m, transit) && !n[id].fInTried
    ensures NewCountOk(n, nNew, transit + {id}, surplus + 1)
  {
    assert NewIds(n, transit + {id}) == NewIds(m, transit) - {id};
  }

  lemma CountStays(m: InfoMap, n: InfoMap, id: nat, nNew: int, transit: set<nat>, surplus: int)
    requires NewCountOk(m, nNew, transit, surplus) && Changed(m, n, id) && n[id].fInTried == m[id].fInTried
    requires id in transit || n[id].fInTried || 1 <= n[id].nRefCount <= NEW_BUCKETS_PER_ADDRESS
    ensures NewCountOk(n, nNew, transit, surplus)
  {
    assert NewIds(n, transit) == NewIds(m, transit);
  }

  lemma CountOutOfTransit(m: InfoMap, n: InfoMap, id: nat, nNew: int, transit: set<nat>, surplus: int)
    requires NewCountOk(m, nNew, transit, surplus) && Changed(m, n, id) && id in transit
    requires !n[id].fInTried && 1 <= n[id].nRefCount <= NEW_BUCKETS_PER_ADDRESS
    ensures NewCountOk(n, nNew, transit - {id}, surplus - 1)
  {
    assert NewIds(n, transit - {id}) == NewIds(m, transit) + {id};
  }

  // ----- clearing and taking new slots -----

  /** What clearing a slot may do to a state. */
  ghost predicate Cleared(s: State, t: State, k: Slot) {
    && t.vvNew == s.vvNew - {k}
    && t == s.(mapInfo := t.mapInfo, vRandom := t.vRandom, mapAddr := t.mapAddr, nNew := t.nNew, vvNew := t.vvNew)
    && t.mapInfo.Keys <= s.mapInfo.Keys
    && (forall x | x in s.mapInfo && (k in s.vvNew ==> x != s.vvNew[k]) ::
          x in t.mapInfo && SameButPlace(t.mapInfo[x], s.mapInfo[x]))
    && (forall x | x in t.mapInfo :: t.mapInfo[x].service == s.mapInfo[x].service)
  }

  /** Taking one slot from an entry, which goes in transit when it was its last. */
  lemma DropSlotSpec(h: Hashing, s: State, k: Slot, transit: set<nat>, surplus: int)
    requires InvWith(h, s, transit, surplus) && k in s.vvNew
    ensures var t, id := DropSlot(s, k), s.vvNew[k];
            if t.mapInfo[id].nRefCount == 0 then InvWith(h, t, transit + {id}, surplus + 1)
                else InvWith(h, t, transit, surplus)
  {
    var t, id := DropSlot(s, k), s.vvNew[k];
    ChangedKeepsOrder(s.mapInfo, t.mapInfo, id, s.vRandom, s.mapAddr, s.nIdCount);
    ChangedKeepsTimes(s.mapInfo, t.mapInfo, id);
    ChangedKeepsTried(h, s.mapInfo, t.mapInfo, id, s.vvTried, s.nTried);
    DropKeepsRefs(s.mapInfo, t.mapInfo, s.vvNew, k);
    assert id in NewIds(s.mapInfo, transit);
    if t.mapInfo[id].nRefCount == 0 {
      DropKeepsSlots(h, s.mapInfo, t.mapInfo, s.vvNew, k, transit, transit + {id});
      CountIntoTransit(s.mapInfo, t.mapInfo, id, s.nNew, transit, surplus);
    } else {
      DropKeepsSlots(h, s.mapInfo, t.mapInfo, s.vvNew, k, transit, transit);
      CountStays(s.mapInfo, t.mapInfo, id, s.nNew, transit, surplus);
    }
  }

  lemma ClearNewShape(s: State, k: Slot)
    requires IndexOk(s.mapInfo, s.vRandom) && (k in s.vvNew ==> s.vvNew[k] in s.mapInfo)
    ensures Cleared(s, ClearNew(s, k), k)
  {
    hide IndexOk, Delete;
    if k in s.vvNew {
      var d, id := DropSlot(s, k), s.vvNew[k];
      ChangedKeepsIndex(s.mapInfo, d.mapInfo, id, s.vRandom);
      DeleteKeepsIndex(d, id);
    } else {
      assert s.vvNew - {k} == s.vvNew;
    }
  }

  /** Clearing a slot never touches an entry in transit or a tried one, and empties exactly that slot. */
  lemma ClearNewSpec(h: Hashing, s: State, k: Slot, transit: set<nat>, surplus: int)
    requires InvWith(h, s, transit, surplus)
    ensures InvWith(h, ClearNew(s, k), transit, surplus)
    ensures Cleared(s, ClearNew(s, k), k)
  {
    hide Delete, Cleared, IndexOk, AddrOk, TriedOk, NewOk, TimesOk;
    if k in s.vvNew {
      NewEntryExists(h, s, k, transit, surplus);
      var t, id := DropSlot(s, k), s.vvNew[k];
      DropSlotSpec(h, s, k, transit, surplus);
      if t.mapInfo[id].nRefCount == 0 {
        DeleteSpec(h, t, id, transit + {id}, surplus + 1);
        assert transit + {id} - {id} == transit;
      }
    }
    ClearNewShape(s, k);
  }

  lemma NewEntryExists(h: Hashing, s: State, k: Slot, transit: set<nat>, surplus: int)
    requires NewOk(h, s.mapInfo, s.vvNew, s.nNew, transit, surplus) && k in s.vvNew
    ensures s.vvNew[k] in s.mapInfo && s.vvNew[k] !in transit
  {
  }

  function Take(s: State, id: nat, k: Slot): State
    requires id in s.mapInfo
  {
    SetInfo(s, id, s.mapInfo[id].(nRefCount := s.mapInfo[id].nRefCount + 1)).(vvNew := s.vvNew[k := id])
  }

  lemma TakeKeepsRefs(m: InfoMap, n: InfoMap, t: Table, id: nat, k: Slot)
    requires RefsOk(m, t) && k !in t && Changed(m, n, id) && n[id].nRefCount == m[id].nRefCount + 1
    ensures RefsOk(n, t[k := id])
  {
    forall x | x in n ensures n[x].nRefCount == |SlotsOf(t[k := id], x)| {
      SlotsAfterTake(t, k, id, x);
      assert x != id ==> n[x] == m[x];
    }
  }

  lemma TakeKeepsSlots(h: Hashing, m: InfoMap, n: InfoMap, t: Table, id: nat, k: Slot, transit: set<nat>)
    requires NewSlotsOk(h, m, t, transit) && k !in t && Changed(m, n, id) && !n[id].fInTried
        && m[id].fInTried == n[id].fInTried
    requires k.bucket < h.newBuckets && h.NewSlotIn(m[id].service, k.bucket) == k
    ensures NewSlotsOk(h, n, t[k := id], transit - {id})
  {
  }

  /** Putting an entry into a free slot of the new table. */
  lemma TakeSpec(h: Hashing, s: State, id: nat, k: Slot, transit: set<nat>, surplus: int)
    requires InvWith(h, s, transit, surplus)
    requires id in s.mapInfo && !s.mapInfo[id].fInTried && s.mapInfo[id].nRefCount < NEW_BUCKETS_PER_ADDRESS
    requires k !in s.vvNew && k.bucket < h.newBuckets && h.NewSlotIn(s.mapInfo[id].service, k.bucket) == k
    ensures InvWith(h, Take(s, id, k), transit - {id}, if id in transit then surplus - 1 else surplus)
  {
    hide IndexOk, AddrOk, TriedOk, NewSlotsOk, RefsOk, NewCountOk;
    RefsAreNatural(s.mapInfo, s.vvNew, id);
    var t := Take(s, id, k);
    ChangedKeepsOrder(s.mapInfo, t.mapInfo, id, s.vRandom, s.mapAddr, s.nIdCount);
    ChangedKeepsTimes(s.mapInfo, t.mapInfo, id);
    ChangedKeepsTried(h, s.mapInfo, t.mapInfo, id, s.vvTried, s.nTried);
    TakeKeepsRefs(s.mapInfo, t.mapInfo, s.vvNew, id, k);
    TakeKeepsSlots(h, s.mapInfo, t.mapInfo, s.vvNew, id, k, transit);
    if id in transit {
      CountOutOfTransit(s.mapInfo, t.mapInfo, id, s.nNew, transit, surplus);
    } else {
      CountStays(s.mapInfo, t.mapInfo, id, s.nNew, transit, surplus);
      assert transit - {id} == transit;
    }
  }

  // ----- creating an entry -----

  lemma CreateKeepsIndex(m: InfoMap, v: seq<nat>, mapAddr: map<NetAddr, nat>, id: nat, info: AddrInfo)
    requires IndexOk(m, v) && AddrOk(m, mapAddr, id) && info.nRandomPos == |v| && info.service.addr !in mapAddr
    ensures IndexOk(m[id := info], v + [id]) && AddrOk(m[id := info], mapAddr[info.service.addr := id], id + 1)
  {
    assert id !in m;
  }

  lemma CreateKeepsTried(h: Hashing, m: InfoMap, n: InfoMap, id: nat, t: Table, nTried: int)
    requires TriedOk(h, m, t, nTried) && id !in m && id in n && n == m[id := n[id]] && !n[id].fInTried
    ensures TriedOk(h, n, t, nTried)
  {
    assert TriedIds(n) == TriedIds(m);
  }

  lemma CreateKeepsNew(h: Hashing, m: InfoMap, n: InfoMap, id: nat, t: Table, nNew: int)
    requires NewSlotsOk(h, m, t, {}) && NewCountOk(m, nNew, {}, 0)
    requires id !in m && id in n && n == m[id := n[id]] && !n[id].fInTried
    ensures NewSlotsOk(h, n, t, {id}) && NewCountOk(n, nNew, {id}, 0)
  {
    assert NewIds(n, {id}) == NewIds(m, {});
  }

  lemma CreateKeepsRefs(h: Hashing, m: InfoMap, n: InfoMap, id: nat, t: Table)
    requires NewSlotsOk(h, m, t, {}) && RefsOk(m, t)
    requires id !in m && id in n && n == m[id := n[id]] && n[id].nRefCount == 0
    ensures RefsOk(n, t)
  {
    assert SlotsOf(t, id) == {};
  }

  /** A created entry is in transit, and `nNew` has yet to count it. */
  lemma CreateSpec(h: Hashing, s: State, service: Service, nTime: int, nServices: set<nat>, source: NetAddr)
    requires InvWith(h, s, {}, 0) && Find(s, service.addr).None?
    ensures InvWith(h, Create(s, service, nTime, nServices, source), {s.nIdCount}, 0)
  {
    var id := s.nIdCount;
    var info := NewInfo(service, nTime, nServices, source, |s.vRandom|);
    var n := s.mapInfo[id := info];
    assert id !in s.mapInfo;
    CreateKeepsIndex(s.mapInfo, s.vRandom, s.mapAddr, id, info);
    CreateKeepsTried(h, s.mapInfo, n, id, s.vvTried, s.nTried);
    CreateKeepsNew(h, s.mapInfo, n, id, s.vvNew, s.nNew);
    CreateKeepsRefs(h, s.mapInfo, n, id, s.vvNew);
  }

  // ----- moving an entry to the tried table -----

  /** Takes an entry out of every new slot it has. */
  function LeaveNew(s: State, id: nat): State
    requires id in s.mapInfo
  {
    SetInfo(s, id, s.mapInfo[id].(nRefCount := 0)).(vvNew := WithoutId(s.vvNew, id), nNew := s.nNew - 1)
  }

  function WithoutId(t: Table, id: nat): Table {
    map k | k in t && t[k] != id :: t[k]
  }

  /** Takes the entry at a tried slot out of the tried table. */
  function LeaveTried(s: State, k: Slot): State
    requires k in s.vvTried && s.vvTried[k] in s.mapInfo
  {
    var id := s.vvTried[k];
    SetInfo(s, id, s.mapInfo[id].(fInTried := false)).(vvTried := s.vvTried - {k}, nTried := s.nTried - 1)
  }

  function EnterTried(s: State, id: nat, k: Slot): State
    requires id in s.mapInfo
  {
    SetInfo(s, id, s.mapInfo[id].(fInTried := true)).(vvTried := s.vvTried[k := id], nTried := s.nTried + 1)
  }

  lemma LeaveNewKeepsRefs(m: InfoMap, n: InfoMap, id: nat, t: Table)
    requires RefsOk(m, t) && Changed(m, n, id) && n[id].nRefCount == 0
    ensures RefsOk(n, WithoutId(t, id))
  {
    forall x | x in n ensures n[x].nRefCount == |SlotsOf(WithoutId(t, id), x)| {
      assert SlotsOf(WithoutId(t, id), x) == if x == id then {} else SlotsOf(t, x);
    }
  }

  lemma LeaveNewSpec(h: Hashing, s: State, id: nat)
    requires InvWith(h, s, {}, 0) && id in s.mapInfo && !s.mapInfo[id].fInTried
    ensures InvWith(h, LeaveNew(s, id), {id}, 0)
  {
    hide IndexOk, AddrOk, TriedOk, NewSlotsOk, RefsOk;
    var t := LeaveNew(s, id);
    ChangedKeepsOrder(s.mapInfo, t.mapInfo, id, s.vRandom, s.mapAddr, s.nIdCount);
    ChangedKeepsTimes(s.mapInfo, t.mapInfo, id);
    ChangedKeepsTried(h, s.mapInfo, t.mapInfo, id, s.vvTried, s.nTried);
    LeaveNewKeepsRefs(s.mapInfo, t.mapInfo, id, s.vvNew);
    CountIntoTransit(s.mapInfo, t.mapInfo, id, s.nNew, {}, 0);
    assert {} + {id} == {id};
    LeaveNewKeepsSlots(h, s.mapInfo, t.mapInfo, id, s.vvNew);
  }

  lemma LeaveNewKeepsSlots(h: Hashing, m: InfoMap, n: InfoMap, id: nat, t: Table)
    requires NewSlotsOk(h, m, t, {}) && Changed(m, n, id) && !n[id].fInTried
    ensures NewSlotsOk(h, n, WithoutId(t, id), {id})
  {
  }

  lemma LeaveTriedKeepsTried(h: Hashing, m: InfoMap, n: InfoMap, k: Slot, t: Table, nTried: int)
    requires TriedOk(h, m, t, nTried) && k in t && Changed(m, n, t[k]) && !n[t[k]].fInTried
    ensures TriedOk(h, n, t - {k}, nTried - 1)
  {
    var id := t[k];
    assert id in TriedIds(m) && TriedIds(n) == TriedIds(m) - {id};
  }

  lemma LeaveTriedKeepsNew(h: Hashing, m: InfoMap, n: InfoMap, id: nat, t: Table, nNew: int, transit: set<nat>,
          surplus: int)
    requires NewOk(h, m, t, nNew, transit, surplus) && Changed(m, n, id)
    requires m[id].fInTried && !n[id].fInTried && n[id].nRefCount == m[id].nRefCount
    ensures NewOk(h, n, t, nNew, transit + {id}, surplus)
  {
    assert NewIds(n, transit + {id}) == NewIds(m, transit);
    assert NewCountOk(n, nNew, transit + {id}, surplus);
    assert RefsOk(n, t);
  }

  lemma LeaveTriedSpec(h: Hashing, s: State, k: Slot, transit: set<nat>, surplus: int)
    requires InvWith(h, s, transit, surplus) && k in s.vvTried
    ensures InvWith(h, LeaveTried(s, k), transit + {s.vvTried[k]}, surplus)
  {
    hide IndexOk, AddrOk, NewOk;
    var t, id := LeaveTried(s, k), s.vvTried[k];
    ChangedKeepsOrder(s.mapInfo, t.mapInfo, id, s.vRandom, s.mapAddr, s.nIdCount);
    ChangedKeepsTimes(s.mapInfo, t.mapInfo, id);
    LeaveTriedKeepsTried(h, s.mapInfo, t.mapInfo, k, s.vvTried, s.nTried);
    LeaveTriedKeepsNew(h, s.mapInfo, t.mapInfo, id, s.vvNew, s.nNew, transit, surplus);
  }

  lemma EnterTriedKeepsTried(h: Hashing, m: InfoMap, n: InfoMap, id: nat, t: Table, nTried: int)
    requires TriedOk(h, m, t, nTried) && Changed(m, n, id) && !m[id].fInTried && n[id].fInTried
    requires h.TriedSlot(m[id].service) !in t
    ensures TriedOk(h, n, t[h.TriedSlot(m[id].service) := id], nTried + 1)
  {
    assert TriedIds(n) == TriedIds(m) + {id};
  }

  lemma EnterTriedKeepsNew(h: Hashing, m: InfoMap, n: InfoMap, id: nat, t: Table, nNew: int, transit: set<nat>,
          surplus: int)
    requires NewOk(h, m, t, nNew, transit, surplus) && Changed(m, n, id) && id in transit
    requires n[id].fInTried && n[id].nRefCount == m[id].nRefCount
    ensures NewOk(h, n, t, nNew, transit - {id}, surplus)
  {
    assert NewIds(n, transit - {id}) == NewIds(m, transit);
    assert NewCountOk(n, nNew, transit - {id}, surplus);
    assert RefsOk(n, t);
  }

  lemma EnterTriedSpec(h: Hashing, s: State, id: nat, transit: set<nat>, surplus: int)
    requires InvWith(h, s, transit, surplus) && id in transit
    requires s.mapInfo[id].nLastSuccess > 0 && h.TriedSlot(s.mapInfo[id].service) !in s.vvTried
    ensures InvWith(h, EnterTried(s, id, h.TriedSlot(s.mapInfo[id].service)), transit - {id}, surplus)
  {
    hide IndexOk, AddrOk, TriedOk, NewOk;
    var t := EnterTried(s, id, h.TriedSlot(s.mapInfo[id].service));
    ChangedKeepsOrder(s.mapInfo, t.mapInfo, id, s.vRandom, s.mapAddr, s.nIdCount);
    ChangedKeepsTimes(s.mapInfo, t.mapInfo, id);
    EnterTriedKeepsTried(h, s.mapInfo, t.mapInfo, id, s.vvTried, s.nTried);
    EnterTriedKeepsNew(h, s.mapInfo, t.mapInfo, id, s.vvNew, s.nNew, transit, surplus);
  }

  /** The entry a tried slot evicts goes back to its new slot, displacing whatever is there. */
  function BackToNew(h: Hashing, s: State, id: nat): State
    requires id in s.mapInfo
  {
    var k := h.NewSlot(s.mapInfo[id].service, s.mapInfo[id].source);
    var c := ClearNew(s, k);
    if id !in c.mapInfo then c
    else
      var t := Take(c, id, k);
      t.(nNew := t.nNew + 1)
  }

  lemma NotInTable(h: Hashing, s: State, k: Slot, id: nat, transit: set<nat>, surplus: int)
    requires InvWith(h, s, transit, surplus) && id in transit
    ensures k in s.vvNew ==> s.vvNew[k] != id
    ensures s.mapInfo[id].nRefCount == 0
  {
    assert SlotsOf(s.vvNew, id) == {} by {
      forall q | q in s.vvNew ensures s.vvNew[q] != id {
      }
    }
  }

  lemma NewSlotInRange(h: Hashing, service: Service, src: NetAddr)
    requires h.Ok()
    ensures var k := h.NewSlot(service, src); k.bucket < h.newBuckets && h.NewSlotIn(service, k.bucket) == k
  {
  }

  lemma SurplusIsCounted(h: Hashing, s: State, transit: set<nat>, surplus: int, d: int)
    requires InvWith(h, s, transit, surplus)
    ensures InvWith(h, s.(nNew := s.nNew + d), transit, surplus + d)
  {
    hide IndexOk, AddrOk, TriedOk, NewSlotsOk, RefsOk, TimesOk;
  }

  lemma BackToNewSpec(h: Hashing, s: State, id: nat, transit: set<nat>)
    requires InvWith(h, s, transit, 0) && id in transit
    ensures InvWith(h, BackToNew(h, s, id), transit - {id}, 0)
    ensures var t := BackToNew(h, s, id);
            && t.vvTried == s.vvTried && t.nIdCount == s.nIdCount && t.collisions == s.collisions
                && t.nLastGood == s.nLastGood
            && t.mapInfo.Keys <= s.mapInfo.Keys
            && (forall x | x in t.mapInfo :: t.mapInfo[x].service == s.mapInfo[x].service)
            && (forall x | x in transit && x != id :: x in t.mapInfo && SameButPlace(t.mapInfo[x], s.mapInfo[x]))
            && id in t.mapInfo && SameButPlace(t.mapInfo[id], s.mapInfo[id].(nRefCount := 1))
  {
    hide IndexOk, AddrOk, TriedOk, NewOk, TimesOk, ClearNew;
    var k := h.NewSlot(s.mapInfo[id].service, s.mapInfo[id].source);
    NewSlotInRange(h, s.mapInfo[id].service, s.mapInfo[id].source);
    ClearNewSpec(h, s, k, transit, 0);
    var c := ClearNew(s, k);
    forall x | x in transit ensures k in s.vvNew ==> s.vvNew[k] != x {
      NotInTable(h, s, k, x, transit, 0);
    }
    NotInTable(h, c, k, id, transit, 0);
    assert SameButPlace(c.mapInfo[id], s.mapInfo[id]);
    TakeSpec(h, c, id, k, transit, 0);
    SurplusIsCounted(h, Take(c, id, k), transit - {id}, -1, 1);
  }

  /** Moves an untried entry into its tried slot, sending the entry that was there back to the new table. */
  function MakeTried(h: Hashing, s: State, id: nat): State
    requires id in s.mapInfo
  {
    var a := LeaveNew(s, id);
    var k := h.TriedSlot(s.mapInfo[id].service);
    if k !in a.vvTried || a.vvTried[k] !in a.mapInfo then EnterTried(a, id, k)
    else
      var c := BackToNew(h, LeaveTried(a, k), a.vvTried[k]);
      if id in c.mapInfo then EnterTried(c, id, k) else c
  }

  /** What a move to the tried table leaves alone: tried slots never empty, entries keep their services. */
  ghost predicate Kept(s: State, t: State) {
    && s.vvTried.Keys <= t.vvTried.Keys
    && s.nIdCount <= t.nIdCount
    && (forall x | x in t.mapInfo :: if x in s.mapInfo then t.mapInfo[x].service == s.mapInfo[x].service
        else x >= s.nIdCount)
  }

  lemma KeptKeepsCollisions(h: Hashing, s: State, t: State, collisions: set<nat>)
    requires CollisionsOk(h, s.mapInfo, s.vvTried, s.nIdCount, collisions) && Kept(s, t)
    ensures CollisionsOk(h, t.mapInfo, t.vvTried, t.nIdCount, collisions)
  {
  }

  /**
   The move keeps the tables consistent, fills the entry's tried slot and no other, and sends the entry
   that was there back to one new slot.
   */
  lemma MakeTriedSpec(h: Hashing, s: State, id: nat)
    requires InvWith(h, s, {}, 0) && id in s.mapInfo && !s.mapInfo[id].fInTried && s.mapInfo[id].nLastSuccess > 0
    ensures var t := MakeTried(h, s, id);
            && InvWith(h, t, {}, 0) && Kept(s, t)
            && id in t.mapInfo && SameButPlace(t.mapInfo[id], s.mapInfo[id].(fInTried := true, nRefCount := 0))
            && var k := h.TriedSlot(s.mapInfo[id].service);
            && t.vvTried == s.vvTried[k := id]
            && (k in s.vvTried ==>
                  && s.vvTried[k] in s.mapInfo && s.vvTried[k] in t.mapInfo
                  && SameButPlace(t.mapInfo[s.vvTried[k]], s.mapInfo[s.vvTried[k]].(fInTried := false, nRefCount := 1)))
            && t.nIdCount == s.nIdCount && t.collisions == s.collisions && t.nLastGood == s.nLastGood
  {
    hide IndexOk, AddrOk, TriedOk, NewOk, TimesOk, BackToNew;
    LeaveNewSpec(h, s, id);
    var a := LeaveNew(s, id);
    var k := h.TriedSlot(s.mapInfo[id].service);
    assert {id} - {id} == {};
    if k !in a.vvTried {
      EnterTriedSpec(h, a, id, {id}, 0);
    } else {
      EvictSpec(h, a, id, k);
      EnterTriedSpec(h, BackToNew(h, LeaveTried(a, k), a.vvTried[k]), id, {id}, 0);
    }
  }

  /** The entry in the way leaves its tried slot for a new one; the entry in transit is not touched. */
  lemma EvictSpec(h: Hashing, s: State, id: nat, k: Slot)
    requires InvWith(h, s, {id}, 0) && k in s.vvTried
    ensures s.vvTried[k] in s.mapInfo && s.vvTried[k] != id
    ensures var evicted, c := s.vvTried[k], BackToNew(h, LeaveTried(s, k), s.vvTried[k]);
            && InvWith(h, c, {id}, 0) && c.vvTried == s.vvTried - {k}
            && id in c.mapInfo && SameButPlace(c.mapInfo[id], s.mapInfo[id])
            && evicted in c.mapInfo
            && SameButPlace(c.mapInfo[evicted], s.mapInfo[evicted].(fInTried := false, nRefCount := 1))
            && (forall x | x in c.mapInfo :: x in s.mapInfo && c.mapInfo[x].service == s.mapInfo[x].service)
            && c.nIdCount == s.nIdCount && c.collisions == s.collisions && c.nLastGood == s.nLastGood
  {
    hide IndexOk, AddrOk, TriedOk, NewOk, TimesOk, BackToNew;
    var evicted := s.vvTried[k];
    TriedEntryIsTried(h, s, k);
    LeaveTriedSpec(h, s, k, {id}, 0);
    var b := LeaveTried(s, k);
    assert {id} + {evicted} == {id, evicted} && {id, evicted} - {evicted} == {id};
    BackToNewSpec(h, b, evicted, {id, evicted});
    assert SameButPlace(BackToNew(h, b, evicted).mapInfo[id], b.mapInfo[id]);
  }

  lemma TriedEntryIsTried(h: Hashing, s: State, k: Slot)
    requires TriedOk(h, s.mapInfo, s.vvTried, s.nTried) && k in s.vvTried
    ensures s.vvTried[k] in s.mapInfo && s.mapInfo[s.vvTried[k]].fInTried
  {
  }

  // ----- the consistency check -----

  ghost predicate EntryTests(s: State, id: nat)
    requires id in s.mapInfo
  {
    var a := s.mapInfo[id];
    && (a.fInTried ==> a.nLastSuccess != 0 && a.nRefCount == 0)
    && (!a.fInTried ==> 0 < a.nRefCount <= NEW_BUCKETS_PER_ADDRESS)
    && a.service.addr in s.mapAddr && s.mapAddr[a.service.addr] == id
    && a.nRandomPos < |s.vRandom| && s.vRandom[a.nRandomPos] == id
    && a.nLastTry >= 0 && a.nLastSuccess >= 0
  }

  ghost predicate TriedTests(h: Hashing, m: InfoMap, t: Table) {
    && (forall k | k in t :: t[k] in TriedIds(m) && h.TriedSlot(m[t[k]].service) == k)
    && (forall id | id in TriedIds(m) :: |SlotsOf(t, id)| == 1)
  }

  ghost predicate NewTests(h: Hashing, m: InfoMap, t: Table) {
    && (forall k | k in t :: t[k] in NewIds(m, {}) && h.NewSlotIn(m[t[k]].service, k.bucket) == k)
    && (forall id | id in NewIds(m, {}) :: |SlotsOf(t, id)| == m[id].nRefCount)
  }

  /**
   The tests of `Check_`, in its order: sizes, each entry on its own, the two counters, then each table
   slot by slot together with the demand that the walk uses up every entry exactly.
   */
  ghost predicate PassesCheck(h: Hashing, s: State) {
    && |s.vRandom| == s.nTried + s.nNew
    && (forall id | id in s.mapInfo :: EntryTests(s, id))
    && |TriedIds(s.mapInfo)| == s.nTried && |NewIds(s.mapInfo, {})| == s.nNew
    && TriedTests(h, s.mapInfo, s.vvTried)
    && NewTests(h, s.mapInfo, s.vvNew)
    && h.key != 0
  }

  lemma TriedPasses(h: Hashing, m: InfoMap, t: Table)
    requires TriedSlotsOk(h, m, t)
    ensures TriedTests(h, m, t)
  {
    forall id | id in TriedIds(m) ensures |SlotsOf(t, id)| == 1 {
      assert SlotsOf(t, id) == {h.TriedSlot(m[id].service)};
    }
  }

  lemma NewPasses(h: Hashing, m: InfoMap, t: Table)
    requires NewSlotsOk(h, m, t, {}) && RefsOk(m, t)
    ensures NewTests(h, m, t)
    ensures forall id | id in TriedIds(m) :: m[id].nRefCount == 0
  {
    forall id | id in TriedIds(m) ensures m[id].nRefCount == 0 {
      assert SlotsOf(t, id) == {};
    }
  }

  lemma EntryPasses(h: Hashing, s: State, id: nat)
    requires InvWith(h, s, {}, 0) && id in s.mapInfo
    ensures EntryTests(s, id)
  {
    hide IndexOk, TriedOk, NewSlotsOk, RefsOk;
    IndexFinds(s.mapInfo, s.vRandom, id);
    NewPasses(h, s.mapInfo, s.vvNew);
    if s.mapInfo[id].fInTried {
      assert id in TriedIds(s.mapInfo);
    } else {
      assert id in NewIds(s.mapInfo, {});
    }
  }

  lemma InvPassesCheck(h: Hashing, s: State)
    requires InvWith(h, s, {}, 0)
    ensures PassesCheck(h, s) <==> h.key != 0
  {
    hide IndexOk, AddrOk, TimesOk, CollisionsOk, TriedSlotsOk, NewSlotsOk, RefsOk, EntryTests, TriedTests, NewTests;
    SizesAgree(h, s);
    forall id | id in s.mapInfo ensures EntryTests(s, id) {
      EntryPasses(h, s, id);
    }
    TriedPasses(h, s.mapInfo, s.vvTried);
    NewPasses(h, s.mapInfo, s.vvNew);
  }
}
