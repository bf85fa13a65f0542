/**
 The parallel verification queue of `src/checkqueue.h`.

 `CheckQueue` is the shared object; each of its methods is one critical section.  `System` puts it
 together with a master thread and any number of workers: every critical section is one atomic step,
 steps interleave arbitrarily, and a sleeping thread may wake at any time.  A check is modelled by the
 result its evaluation gives.
 */
module CheckQueue {
  import opened Arithmetic

  datatype Check = Check(id: nat, ok: bool)

  predicate AllOk(checks: multiset<Check>) {
    forall c | c in checks :: c.ok
  }

  // ----- the shared state and its critical sections -----

  datatype Shared = Shared(queue: seq<Check>, nIdle: int, nTotal: int, fAllOk: bool, nTodo: int)

  /** What a thread leaves a critical section of `Loop` with. */
  datatype Outcome =
    | Sleep
    | Return(result: bool)
    | Work(batch: seq<Check>, fOk: bool)

  function BatchCount(s: Shared, nBatchSize: nat): int
    requires s.nTotal + s.nIdle + 1 > 0
  {
    Max(1, Min(nBatchSize, |s.queue| / (s.nTotal + s.nIdle + 1)))
  }

  /** The last `n` checks, newest first, as popping from the back yields them. */
  function LastReversed(queue: seq<Check>, n: nat): (r: seq<Check>)
    requires n <= |queue|
    ensures |r| == n
  {
    seq(n, i requires 0 <= i < n => queue[|queue| - 1 - i])
  }

  lemma LastReversedSplits(queue: seq<Check>, n: nat)
    requires n <= |queue|
    ensures multiset(LastReversed(queue, n)) + multiset(queue[..|queue| - n]) == multiset(queue)
    decreases n
  {
    if n == 0 {
      assert queue[..|queue|] == queue;
    } else {
      LastReversedSplits(queue, n - 1);
      var k := |queue| - n;
      assert LastReversed(queue, n) == LastReversed(queue, n - 1) + [queue[k]];
      assert queue[..k + 1] == queue[..k] + [queue[k]];
    }
  }

  /** The clean-up after a batch of `nNow` checks that gave `fOk`; a first iteration has `nNow == 0`. */
  function CleanUp(s: Shared, nNow: nat, fOk: bool): Shared {
    if nNow > 0 then s.(fAllOk := s.fAllOk && fOk, nTodo := s.nTodo - nNow)
    else s.(nTotal := s.nTotal + 1)
  }

  /** One pass of the inner loop: return, go to sleep, or take a batch. */
  function Attempt(s: Shared, fMaster: bool, nBatchSize: nat): (r: (Shared, Outcome))
    requires s.nTotal >= 0 && s.nIdle >= 0
  {
    if s.queue == [] then
      if fMaster && s.nTodo == 0 then (s.(nTotal := s.nTotal - 1, fAllOk := true), Return(s.fAllOk))
      else (s.(nIdle := s.nIdle + 1), Sleep)
    else
      var n := BatchCount(s, nBatchSize);
      BatchFits(s, nBatchSize);
      (s.(queue := s.queue[..|s.queue| - n]), Work(LastReversed(s.queue, n), s.fAllOk))
  }

  lemma BatchFits(s: Shared, nBatchSize: nat)
    requires s.nTotal >= 0 && s.nIdle >= 0 && s.queue != []
    ensures 1 <= BatchCount(s, nBatchSize) <= |s.queue|
  {
    DivAtMost(|s.queue|, s.nTotal + s.nIdle + 1);
  }

  lemma DivAtMost(a: nat, d: nat)
    requires d > 0
    ensures 0 <= a / d <= a
  {
    DivMonotone(0, a, d);
    var q: nat := a / d;
    assert a == q * d + a % d;
    MulLe(1, d, q);
    Commute(q, d);
  }

  predicate IsIdle(s: Shared) {
    s.nTotal == s.nIdle && s.nTodo == 0 && s.fAllOk
  }

  /** What evaluating a batch gives: nothing is evaluated once a failure is known. */
  function Evaluate(batch: seq<Check>, fOk: bool): bool {
    fOk && AllOk(multiset(batch))
  }

  /** The queue object; its mutex makes each method one atomic step. */
  class CheckQueueObject {
    var queue: seq<Check>
    var nIdle: int
    var nTotal: int
    var fAllOk: bool
    var nTodo: int
    const nBatchSize: nat

    function State(): Shared
      reads this
    {
      Shared(queue, nIdle, nTotal, fAllOk, nTodo)
    }

    constructor (nBatchSize: nat)
      ensures State() == Shared([], 0, 0, true, 0) && IsIdle(State())
      ensures this.nBatchSize == nBatchSize
    {
      queue, nIdle, nTotal, fAllOk, nTodo := [], 0, 0, true, 0;
      this.nBatchSize := nBatchSize;
    }

    method Add(checks: seq<Check>)
      modifies this
      ensures State() == old(State()).(queue := old(queue) + checks, nTodo := old(nTodo) + |checks|)
    {
      for i := 0 to |checks|
        invariant queue == old(queue) + checks[..i]
        invariant State() == old(State()).(queue := queue)
      {
        queue := queue + [checks[i]];
      }
      assert checks[..|checks|] == checks;
      nTodo := nTodo + |checks|;
    }

    /** Swaps `nNow` checks off the back of the queue. */
    method TakeBatch(nNow: nat) returns (batch: seq<Check>)
      requires nNow <= |queue|
      modifies this`queue
      ensures batch == LastReversed(old(queue), nNow)
      ensures queue == old(queue)[..|old(queue)| - nNow]
    {
      batch := [];
      for i := 0 to nNow
        invariant queue == old(queue)[..|old(queue)| - i]
        invariant batch == LastReversed(old(queue), i)
      {
        batch := batch + [queue[|queue| - 1]];
        queue := queue[..|queue| - 1];
      }
    }

    /** The section a thread enters from outside or after a batch; `notify` says the master was notified. */
    method EnterSection(fMaster: bool, nNow: nat, fOk: bool) returns (o: Outcome, notify: bool)
      requires nTotal >= 0 && nIdle >= 0
      modifies this
      ensures (State(), o) == Attempt(CleanUp(old(State()), nNow, fOk), fMaster, nBatchSize)
      ensures notify == (nNow > 0 && old(nTodo) - nNow == 0 && !fMaster)
    {
      notify := false;
      if nNow > 0 {
        fAllOk := fAllOk && fOk;
        nTodo := nTodo - nNow;
        if nTodo == 0 && !fMaster {
          notify := true;
        }
      } else {
        nTotal := nTotal + 1;
      }
      o := InnerLoop(fMaster);
    }

    /** The section a thread resumes when it wakes. */
    method WakeSection(fMaster: bool) returns (o: Outcome)
      requires nTotal >= 0 && nIdle >= 1
      modifies this
      ensures (State(), o) == Attempt(old(State()).(nIdle := old(nIdle) - 1), fMaster, nBatchSize)
    {
      nIdle := nIdle - 1;
      o := InnerLoop(fMaster);
    }

    method InnerLoop(fMaster: bool) returns (o: Outcome)
      requires nTotal >= 0 && nIdle >= 0
      modifies this
      ensures (State(), o) == Attempt(old(State()), fMaster, nBatchSize)
    {
      if queue == [] {
        if fMaster && nTodo == 0 {
          nTotal := nTotal - 1;
          o := Return(fAllOk);
          fAllOk := true;
          return;
        }
        nIdle := nIdle + 1;
        return Sleep;
      }
      BatchFits(State(), nBatchSize);
      var nNow := Max(1, Min(nBatchSize, |queue| / (nTotal + nIdle + 1)));
      var batch := TakeBatch(nNow);
      o := Work(batch, fAllOk);
    }

    method IsIdleSection() returns (idle: bool)
      ensures idle == IsIdle(State())
    {
      idle := nTotal == nIdle && nTodo == 0 && fAllOk;
    }
  }

  /** The evaluation loop a thread runs outside the mutex. */
  method EvaluateBatch(batch: seq<Check>, fOk: bool) returns (r: bool)
    ensures r == Evaluate(batch, fOk)
  {
    r := fOk;
    for i := 0 to |batch|
      invariant r == (fOk && forall k | 0 <= k < i :: batch[k].ok)
    {
      if r {
        r := batch[i].ok;
      }
    }
    assert AllOk(multiset(batch)) == (forall k | 0 <= k < |batch| :: batch[k].ok) by {
      assert forall k | 0 <= k < |batch| :: batch[k] in multiset(batch);
      assert forall c | c in multiset(batch) :: c in batch;
    }
  }

  // ----- the system -----

  datatype Phase =
    | Outside
    | Asleep(notified: bool)
    | Running(batch: seq<Check>, fOk: bool)

  datatype Session = Session(checks: multiset<Check>, result: bool)

  /**
   Thread 0 is the master.  `added` and `retired` record the checks handed in and finished in the current
   session, and `sessions` what every finished `Wait` was about and returned; no step looks at them.
   */
  datatype System = System(
    shared: Shared,
    threads: seq<Phase>,
    nBatchSize: nat,
    added: multiset<Check>,
    retired: multiset<Check>,
    sessions: seq<Session>
  )

  datatype Step =
    | AddChecks(checks: seq<Check>)
    | Enter(t: nat)
    | Wake(t: nat)

  function PhaseAfter(o: Outcome): Phase {
    match o
    case Sleep => Asleep(false)
    case Return(_) => Outside
    case Work(batch, fOk) => Running(batch, fOk)
  }

  function BatchOf(p: Phase): seq<Check> {
    if p.Running? then p.batch else []
  }

  /** The master adds only between sessions' waits, a sleeper only wakes, anyone else enters. */
  predicate Enabled(s: System, step: Step) {
    match step
    case AddChecks(_) => |s.threads| > 0 && s.threads[0].Outside?
    case Enter(t) => t < |s.threads| && !s.threads[t].Asleep?
    case Wake(t) => t < |s.threads| && s.threads[t].Asleep?
  }

  /** Thread `t` enters phase `p`, and a sleeping master is notified if asked. */
  function Moved(ts: seq<Phase>, t: nat, p: Phase, notify: bool): (r: seq<Phase>)
    requires t < |ts|
    ensures |r| == |ts|
  {
    var moved := ts[t := p];
    if notify && moved[0].Asleep? then moved[0 := Asleep(true)] else moved
  }

  /** The system after thread `t` left a critical section with the given shared state and outcome. */
  function After(s: System, t: nat, shared: Shared, o: Outcome, finished: seq<Check>, notify: bool): System
    requires t < |s.threads|
  {
    var threads := Moved(s.threads, t, PhaseAfter(o), notify);
    var retired := s.retired + multiset(finished);
    if o.Return? then
      s.(shared := shared, threads := threads, added := multiset{}, retired := multiset{},
         sessions := s.sessions + [Session(s.added, o.result)])
    else
      s.(shared := shared, threads := threads, retired := retired)
  }

  /** The shared state once thread `t` has evaluated its batch, if any, and cleaned up after it. */
  function CleanedUp(s: System, t: nat): Shared
    requires t < |s.threads|
  {
    var p := s.threads[t];
    CleanUp(s.shared, |BatchOf(p)|, p.Running? && Evaluate(p.batch, p.fOk))
  }

  /** Thread `t` makes its move from the cleaned-up state; a worker that retired the last check notifies. */
  function Leave(s: System, t: nat, mid: Shared, finished: seq<Check>): System
    requires t < |s.threads| && mid.nTotal >= 0 && mid.nIdle >= 0
  {
    var r := Attempt(mid, t == 0, s.nBatchSize);
    After(s, t, r.0, r.1, finished, finished != [] && mid.nTodo == 0 && t != 0)
  }

  function Next(s: System, step: Step): System
    requires Enabled(s, step) && Counted(s)
  {
    match step
    case AddChecks(checks) =>
      s.(shared := s.shared.(queue := s.shared.queue + checks, nTodo := s.shared.nTodo + |checks|),
         added := s.added + multiset(checks))
    case Enter(t) => Leave(s, t, CleanedUp(s, t), BatchOf(s.threads[t]))
    case Wake(t) =>
      CountsUpdate(s.threads, t, Outside);
      Leave(s, t, s.shared.(nIdle := s.shared.nIdle - 1), [])
  }

  // ----- counting threads and in-flight checks -----

  function InFlight(ts: seq<Phase>): multiset<Check> {
    if ts == [] then multiset{} else multiset(BatchOf(ts[0])) + InFlight(ts[1..])
  }

  function Sleeping(ts: seq<Phase>): nat {
    if ts == [] then 0 else (if ts[0].Asleep? then 1 else 0) + Sleeping(ts[1..])
  }

  function Inside(ts: seq<Phase>): nat {
    if ts == [] then 0 else (if ts[0].Outside? then 0 else 1) + Inside(ts[1..])
  }

  predicate Counted(s: System) {
    s.shared.nTotal == Inside(s.threads) && s.shared.nIdle == Sleeping(s.threads)
  }

  lemma {:induction false} CountsBound(ts: seq<Phase>)
    ensures Sleeping(ts) <= Inside(ts)
    ensures InFlight(ts) == multiset{} && (forall p | p in ts :: p.Running? ==> p.batch != [])
        ==> Sleeping(ts) == Inside(ts)
  {
    if ts != [] {
      CountsBound(ts[1..]);
      if InFlight(ts) == multiset{} && forall p | p in ts :: p.Running? ==> p.batch != [] {
        assert ts[0] in ts;
        assert |multiset(BatchOf(ts[0]))| + |InFlight(ts[1..])| == |InFlight(ts)| == 0;
        assert forall p | p in ts[1..] :: p in ts;
      }
    }
  }

  lemma {:induction false} CountsUpdate(ts: seq<Phase>, t: nat, p: Phase)
    requires t < |ts|
    ensures Sleeping(ts[t := p]) == Sleeping(ts) - (if ts[t].Asleep? then 1 else 0) + (if p.Asleep? then 1 else 0)
    ensures Inside(ts[t := p]) == Inside(ts) - (if ts[t].Outside? then 0 else 1) + (if p.Outside? then 0 else 1)
  {
    if t == 0 {
      assert ts[t := p][1..] == ts[1..];
    } else {
      assert ts[t := p][1..] == ts[1..][t - 1 := p];
      CountsUpdate(ts[1..], t - 1, p);
    }
  }

  lemma {:induction false} InFlightUpdate(ts: seq<Phase>, t: nat, p: Phase)
    requires t < |ts|
    ensures InFlight(ts[t := p]) + multiset(BatchOf(ts[t])) == InFlight(ts) + multiset(BatchOf(p))
  {
    var us := ts[t := p];
    if t == 0 {
      assert us[1..] == ts[1..];
    } else {
      assert us[1..] == ts[1..][t - 1 := p];
      InFlightUpdate(ts[1..], t - 1, p);
      var h, x, y := multiset(BatchOf(ts[0])), multiset(BatchOf(ts[t])), multiset(BatchOf(p));
      assert InFlight(us) + x == h + (InFlight(us[1..]) + x);
      assert InFlight(ts) + y == h + (InFlight(ts[1..]) + y);
    }
  }

  /** Taking thread `t` out of the count takes out exactly its batch. */
  lemma TakeOut(ts: seq<Phase>, t: nat)
    requires t < |ts|
    ensures var out, batch := ts[t := Outside], BatchOf(ts[t]);
            && InFlight(out) + multiset(batch) == InFlight(ts)
            && |InFlight(out)| + |batch| == |InFlight(ts)|
            && Sleeping(out) == Sleeping(ts) - (if ts[t].Asleep? then 1 else 0)
            && Inside(out) == Inside(ts) - (if ts[t].Outside? then 0 else 1)
  {
    CountsUpdate(ts, t, Outside);
    InFlightUpdate(ts, t, Outside);
    assert InFlight(ts) + multiset(BatchOf(Outside)) == InFlight(ts);
  }

  lemma {:induction false} SomeoneRuns(ts: seq<Phase>)
    requires InFlight(ts) != multiset{}
    ensures exists t :: 0 <= t < |ts| && ts[t].Running?
  {
    if BatchOf(ts[0]) != [] {
      assert ts[0].Running?;
    } else {
      SomeoneRuns(ts[1..]);
      var k :| 0 <= k < |ts[1..]| && ts[1..][k].Running?;
      assert ts[k + 1].Running?;
    }
  }

  // ----- the invariant -----

  /** Every check added this session is queued, in flight or retired, and `nTodo` counts the first two. */
  ghost predicate Balanced(s: System) {
    && s.shared.nTodo == |s.shared.queue| + |InFlight(s.threads)|
    && s.added == multiset(s.shared.queue) + InFlight(s.threads) + s.retired
  }

  /** `fAllOk` reports the retired checks, and a batch taken after a failure knows about it. */
  ghost predicate Truthful(s: System) {
    && s.shared.fAllOk == AllOk(s.retired)
    && (forall p | p in s.threads && p.Running? :: p.batch != [] && (!p.fOk ==> !s.shared.fAllOk))
    && (forall e | e in s.sessions :: e.result == AllOk(e.checks))
  }

  /** The master sleeps only on an empty queue, and is notified exactly when no check is unfinished. */
  ghost predicate MasterOk(s: System) {
    |s.threads| > 0
    && (s.threads[0].Asleep? ==> s.shared.queue == [])
    && (s.threads[0].Asleep? ==> (if s.threads[0].notified then s.shared.nTodo == 0 else s.shared.nTodo > 0))
  }

  ghost predicate Inv(s: System) {
    Counted(s) && Balanced(s) && Truthful(s) && MasterOk(s)
  }

  /** Nobody has entered yet; any number of workers is allowed. */
  ghost function Init(workers: nat, nBatchSize: nat): (s: System)
    ensures Inv(s) && |s.threads| == workers + 1 && s.sessions == []
  {
    var threads := seq(workers + 1, _ => Outside);
    AllOutside(threads);
    System(Shared([], 0, 0, true, 0), threads, nBatchSize, multiset{}, multiset{}, [])
  }

  lemma {:induction false} AllOutside(ts: seq<Phase>)
    requires forall p | p in ts :: p.Outside?
    ensures Inside(ts) == 0 && Sleeping(ts) == 0 && InFlight(ts) == multiset{}
  {
    if ts != [] {
      assert ts[0] in ts;
      assert forall p | p in ts[1..] :: p in ts;
      AllOutside(ts[1..]);
    }
  }

  /** What one critical section does to the counters, whichever outcome it has. */
  lemma AttemptSpec(s: Shared, fMaster: bool, nBatchSize: nat)
    requires s.nTotal >= 0 && s.nIdle >= 0
    ensures var r := Attempt(s, fMaster, nBatchSize);
            && r.0.nTodo == s.nTodo
            && multiset(r.0.queue) + multiset(BatchOf(PhaseAfter(r.1))) == multiset(s.queue)
            && |r.0.queue| + |BatchOf(PhaseAfter(r.1))| == |s.queue|
            && (r.1.Work? ==> r.1.batch != [] && r.1.fOk == s.fAllOk)
            && r.0.nTotal == s.nTotal - (if r.1.Return? then 1 else 0)
            && r.0.nIdle == s.nIdle + (if r.1.Sleep? then 1 else 0)
            && (r.1.Return? ==> fMaster && s.queue == [] && s.nTodo == 0 && r.1.result == s.fAllOk && r.0.fAllOk)
            && (!r.1.Return? ==> r.0.fAllOk == s.fAllOk)
            && (r.1.Sleep? ==> s.queue == [] && (fMaster ==> s.nTodo != 0))
  {
    hide LastReversed, BatchCount;
    if s.queue != [] {
      BatchFits(s, nBatchSize);
      LastReversedSplits(s.queue, BatchCount(s, nBatchSize));
    }
  }

  /**
   A batch is one check, or an equal share of the queue for every thread inside, every sleeper again and one
   more, as near to it as the batch size allows; the newest checks go first and the rest stay as they are.
   */
  lemma BatchShare(s: Shared, fMaster: bool, nBatchSize: nat)
    requires s.nTotal >= 0 && s.nIdle >= 0
    ensures
      var (t, o) := Attempt(s, fMaster, nBatchSize);
      && (o.Work? <==> s.queue != [])
      && (o.Work? ==>
            && var n, sharers := |o.batch|, s.nTotal + s.nIdle + 1;
            && (n > 1 ==> n <= nBatchSize && n * sharers <= |s.queue|)
            && (n < nBatchSize ==> |s.queue| < (n + 1) * sharers)
            && 1 <= n <= |s.queue| && t == s.(queue := s.queue[..|s.queue| - n])
            && forall i | 0 <= i < n :: o.batch[i] == s.queue[|s.queue| - 1 - i])
  {
    if s.queue != [] {
      BatchFits(s, nBatchSize);
      ShareBounds(|s.queue|, s.nTotal + s.nIdle + 1, BatchCount(s, nBatchSize));
    }
  }

  lemma ShareBounds(size: nat, sharers: nat, n: nat)
    requires sharers > 0
    ensures n <= size / sharers <==> n * sharers <= size
    ensures size / sharers < n + 1 <==> size < (n + 1) * sharers
  {
    var q := size / sharers;
    assert size == q * sharers + size % sharers;
    if n <= q {
      MulLe(n, q, sharers);
    } else {
      MulLe(q + 1, n, sharers);
    }
    if n + 1 <= q {
      MulLe(n + 1, q, sharers);
    } else {
      MulLe(q + 1, n + 1, sharers);
    }
  }

  /** Evaluating and merging a batch keeps the meaning of `fAllOk`. */
  lemma MergeResult(retired: multiset<Check>, batch: seq<Check>, fOk: bool, fAllOk: bool)
    requires fAllOk == AllOk(retired) && (!fOk ==> !fAllOk)
    ensures (fAllOk && Evaluate(batch, fOk)) == AllOk(retired + multiset(batch))
  {
    if fAllOk {
      assert forall c | c in retired + multiset(batch) :: c in retired || c in multiset(batch);
    } else {
      var c :| c in retired && !c.ok;
      assert c in retired + multiset(batch);
    }
  }

  lemma MovedCounts(ts: seq<Phase>, t: nat, p: Phase, notify: bool)
    requires t < |ts|
    ensures var out, r := ts[t := Outside], Moved(ts, t, p, notify);
            && Inside(r) == Inside(out) + (if p.Outside? then 0 else 1)
            && Sleeping(r) == Sleeping(out) + (if p.Asleep? then 1 else 0)
  {
    var out, moved := ts[t := Outside], ts[t := p];
    assert out[t := p] == moved;
    CountsUpdate(out, t, p);
    CountsUpdate(moved, 0, Asleep(true));
  }

  lemma MovedInFlight(ts: seq<Phase>, t: nat, p: Phase, notify: bool)
    requires t < |ts|
    ensures InFlight(Moved(ts, t, p, notify)) == InFlight(ts[t := Outside]) + multiset(BatchOf(p))
  {
    var out, moved := ts[t := Outside], ts[t := p];
    assert out[t := p] == moved;
    TakeOut(moved, t);
    assert moved[t := Outside] == out;
    if moved[0].Asleep? {
      InFlightUpdate(moved, 0, Asleep(true));
      assert multiset(BatchOf(moved[0])) == multiset(BatchOf(Asleep(true))) == multiset{};
    }
  }

  lemma MovedSpec(ts: seq<Phase>, t: nat, p: Phase, notify: bool)
    requires t < |ts|
    ensures var out, r := ts[t := Outside], Moved(ts, t, p, notify);
            && Inside(r) == Inside(out) + (if p.Outside? then 0 else 1)
            && Sleeping(r) == Sleeping(out) + (if p.Asleep? then 1 else 0)
            && InFlight(r) == InFlight(out) + multiset(BatchOf(p))
            && (forall q | q in r && q.Running? :: q == p || q in out)
            && (r[0].Asleep? <==> if t == 0 then p.Asleep? else ts[0].Asleep?)
            && (r[0].Asleep? ==>
                  (r[0].notified <==> notify || if t == 0 then p.notified else ts[0].notified))
  {
    MovedCounts(ts, t, p, notify);
    MovedInFlight(ts, t, p, notify);
    var out, r := ts[t := Outside], Moved(ts, t, p, notify);
    forall q | q in r && q.Running? ensures q == p || q in out {
      var i :| 0 <= i < |r| && r[i] == q;
      assert i != t ==> out[i] == q;
    }
  }

  /** The facts a thread has established between its clean-up and its next move. */
  ghost predicate BetweenBalanced(s: System, t: nat, mid: Shared, batch: seq<Check>) {
    && t < |s.threads|
    && var out := s.threads[t := Outside];
    && mid.nTotal == Inside(out) + 1 && mid.nIdle == Sleeping(out)
    && mid.nTodo == |mid.queue| + |InFlight(out)|
    && s.added == multiset(mid.queue) + InFlight(out) + (s.retired + multiset(batch))
  }

  ghost predicate BetweenTruthful(s: System, t: nat, mid: Shared, batch: seq<Check>) {
    && t < |s.threads|
    && mid.fAllOk == AllOk(s.retired + multiset(batch))
    && (forall p | p in s.threads[t := Outside] && p.Running? :: p.batch != [] && (!p.fOk ==> !mid.fAllOk))
    && (forall e | e in s.sessions :: e.result == AllOk(e.checks))
  }

  lemma LeaveCounted(s: System, t: nat, mid: Shared, batch: seq<Check>)
    requires BetweenBalanced(s, t, mid, batch)
    ensures Counted(Leave(s, t, mid, batch))
  {
    hide Attempt, InFlight, Inside, Sleeping, Moved;
    AttemptSpec(mid, t == 0, s.nBatchSize);
    var r := Attempt(mid, t == 0, s.nBatchSize);
    MovedSpec(s.threads, t, PhaseAfter(r.1), batch != [] && mid.nTodo == 0 && t != 0);
  }

  lemma LeaveBalanced(s: System, t: nat, mid: Shared, batch: seq<Check>)
    requires BetweenBalanced(s, t, mid, batch)
    ensures Balanced(Leave(s, t, mid, batch))
  {
    hide Attempt, InFlight, Inside, Sleeping, Moved;
    AttemptSpec(mid, t == 0, s.nBatchSize);
    var r := Attempt(mid, t == 0, s.nBatchSize);
    var p, out := PhaseAfter(r.1), s.threads[t := Outside];
    MovedSpec(s.threads, t, p, batch != [] && mid.nTodo == 0 && t != 0);
    var a := Leave(s, t, mid, batch);
    if !r.1.Return? {
      Regroup(multiset(a.shared.queue), multiset(BatchOf(p)), multiset(mid.queue), InFlight(out), a.retired);
    }
  }

  lemma Regroup(q: multiset<Check>, b: multiset<Check>, all: multiset<Check>, f: multiset<Check>, r: multiset<Check>)
    requires q + b == all
    ensures q + (f + b) + r == all + f + r
  {
  }

  lemma LeaveTruthful(s: System, t: nat, mid: Shared, batch: seq<Check>)
    requires BetweenBalanced(s, t, mid, batch) && BetweenTruthful(s, t, mid, batch)
    ensures Truthful(Leave(s, t, mid, batch))
  {
    hide Attempt, InFlight, Inside, Sleeping;
    AttemptSpec(mid, t == 0, s.nBatchSize);
    var r := Attempt(mid, t == 0, s.nBatchSize);
    var p, out := PhaseAfter(r.1), s.threads[t := Outside];
    MovedSpec(s.threads, t, p, batch != [] && mid.nTodo == 0 && t != 0);
    var a := Leave(s, t, mid, batch);
    if r.1.Return? {
      NobodyRuns(out);
      assert s.added == s.retired + multiset(batch);
      assert a.sessions == s.sessions + [Session(s.added, mid.fAllOk)];
    }
  }

  lemma LeaveMasterOk(s: System, t: nat, mid: Shared, batch: seq<Check>)
    requires MasterOk(s) && t < |s.threads| && mid.nTotal >= 0 && mid.nIdle >= 0
    requires mid.queue == s.shared.queue && mid.nTodo >= 0
    requires mid.nTodo == s.shared.nTodo - |batch|
    ensures MasterOk(Leave(s, t, mid, batch))
  {
    AttemptSpec(mid, t == 0, s.nBatchSize);
    var r := Attempt(mid, t == 0, s.nBatchSize);
    MovedSpec(s.threads, t, PhaseAfter(r.1), batch != [] && mid.nTodo == 0 && t != 0);
  }

  lemma {:induction false} NobodyRuns(ts: seq<Phase>)
    requires InFlight(ts) == multiset{}
    ensures forall p | p in ts && p.Running? :: p.batch == []
  {
    if ts != [] {
      assert |multiset(BatchOf(ts[0]))| + |InFlight(ts[1..])| == |InFlight(ts)| == 0;
      NobodyRuns(ts[1..]);
    }
  }

  lemma BalancedSplits(s: System, t: nat, mid: Shared)
    requires Counted(s) && Balanced(s) && t < |s.threads|
    requires mid.queue == s.shared.queue
    requires mid.nTotal == s.shared.nTotal + (if s.threads[t].Outside? then 1 else 0)
    requires mid.nIdle == s.shared.nIdle - (if s.threads[t].Asleep? then 1 else 0)
    requires mid.nTodo == s.shared.nTodo - |BatchOf(s.threads[t])|
    ensures BetweenBalanced(s, t, mid, BatchOf(s.threads[t]))
  {
    var out, batch := s.threads[t := Outside], BatchOf(s.threads[t]);
    TakeOut(s.threads, t);
    Reorder(multiset(s.shared.queue), InFlight(out), multiset(batch), s.retired);
  }

  lemma Reorder(q: multiset<Check>, f: multiset<Check>, b: multiset<Check>, r: multiset<Check>)
    ensures q + (f + b) + r == q + f + (r + b)
  {
  }

  /** After the clean-up of a batch, or of none, the facts between clean-up and move hold. */
  lemma CleanUpSplits(s: System, t: nat)
    requires Inv(s) && t < |s.threads| && !s.threads[t].Asleep?
    ensures BetweenBalanced(s, t, CleanedUp(s, t), BatchOf(s.threads[t]))
    ensures BetweenTruthful(s, t, CleanedUp(s, t), BatchOf(s.threads[t]))
  {
    var ph := s.threads[t];
    var mid := CleanedUp(s, t);
    assert ph in s.threads;
    BalancedSplits(s, t, mid);
    if ph.Running? {
      MergeResult(s.retired, ph.batch, ph.fOk, s.shared.fAllOk);
    } else {
      assert s.retired + multiset(BatchOf(ph)) == s.retired;
    }
    forall p | p in s.threads[t := Outside] && p.Running? ensures p in s.threads {
    }
  }

  lemma EnterKeepsInv(s: System, t: nat)
    requires Inv(s) && Enabled(s, Enter(t))
    ensures Inv(Next(s, Enter(t)))
  {
    var mid, batch := CleanedUp(s, t), BatchOf(s.threads[t]);
    CleanUpSplits(s, t);
    LeaveCounted(s, t, mid, batch);
    LeaveBalanced(s, t, mid, batch);
    LeaveTruthful(s, t, mid, batch);
    LeaveMasterOk(s, t, mid, batch);
  }

  lemma WakeSplits(s: System, t: nat)
    requires Inv(s) && t < |s.threads| && s.threads[t].Asleep?
    ensures var mid := s.shared.(nIdle := s.shared.nIdle - 1);
            BetweenBalanced(s, t, mid, []) && BetweenTruthful(s, t, mid, [])
  {
    BalancedSplits(s, t, s.shared.(nIdle := s.shared.nIdle - 1));
    assert s.retired + multiset([]) == s.retired;
    forall p | p in s.threads[t := Outside] && p.Running? ensures p in s.threads {
    }
  }

  lemma WakeKeepsInv(s: System, t: nat)
    requires Inv(s) && Enabled(s, Wake(t))
    ensures Inv(Next(s, Wake(t)))
  {
    var mid := s.shared.(nIdle := s.shared.nIdle - 1);
    WakeSplits(s, t);
    LeaveCounted(s, t, mid, []);
    LeaveBalanced(s, t, mid, []);
    LeaveTruthful(s, t, mid, []);
    LeaveMasterOk(s, t, mid, []);
  }

  /** Every step of every thread keeps the invariant. */
  lemma NextKeepsInv(s: System, step: Step)
    requires Inv(s) && Enabled(s, step)
    ensures Inv(Next(s, step))
  {
    match step {
      case AddChecks(checks) =>
        assert multiset(s.shared.queue + checks) == multiset(s.shared.queue) + multiset(checks);
        Regroup(multiset(s.shared.queue), multiset(checks), multiset(s.shared.queue + checks), InFlight(s.threads),
            s.retired);
      case Enter(t) =>
        EnterKeepsInv(s, t);
      case Wake(t) =>
        WakeKeepsInv(s, t);
    }
  }

  // ----- what the invariant gives, over every run -----

  /** Each step is one its thread can take when its turn comes. */
  ghost predicate RunEnabled(s: System, steps: seq<Step>)
    requires Inv(s)
    decreases |steps|
  {
    steps == [] || (Enabled(s, steps[0]) && (NextKeepsInv(s, steps[0]); RunEnabled(Next(s, steps[0]), steps[1..])))
  }

  /** Any interleaving keeps the invariant. */
  ghost function Run(s: System, steps: seq<Step>): (r: System)
    requires Inv(s) && RunEnabled(s, steps)
    ensures Inv(r)
    decreases |steps|
  {
    if steps == [] then s
    else
      NextKeepsInv(s, steps[0]);
      Run(Next(s, steps[0]), steps[1..])
  }

  /**
   In every interleaving with any number of workers, every finished `Wait` returned true exactly when
   every check added since the previous one evaluates to true.
   */
  lemma WaitReportsExactlyItsSession(workers: nat, nBatchSize: nat, steps: seq<Step>, k: nat)
    requires RunEnabled(Init(workers, nBatchSize), steps)
    requires k < |Run(Init(workers, nBatchSize), steps).sessions|
    ensures var e := Run(Init(workers, nBatchSize), steps).sessions[k];
            e.result <==> AllOk(e.checks)
  {
    assert Run(Init(workers, nBatchSize), steps).sessions[k] in Run(Init(workers, nBatchSize), steps).sessions;
  }

  /**
   Whenever the master is between sessions the queue is idle, whatever the workers do meanwhile: the
   controller's assertion cannot fail and no result leaks into the next session.
   */
  lemma IdleBetweenSessions(s: System)
    requires Inv(s) && s.threads[0].Outside? && s.added == multiset{}
    ensures IsIdle(s.shared) && s.shared.queue == [] && InFlight(s.threads) == multiset{}
  {
    assert |s.added| == |multiset(s.shared.queue)| + |InFlight(s.threads)| + |s.retired|;
    CountsBound(s.threads);
    assert s.retired == multiset{};
  }

  /** The queue is idle if and only if every check handed in this session is finished and none has failed. */
  lemma IdleIff(s: System)
    requires Inv(s)
    ensures IsIdle(s.shared) <==> s.retired == s.added && AllOk(s.added)
  {
    hide MasterOk, AllOk, Inside, Sleeping, InFlight;
    assert |s.added| == |multiset(s.shared.queue)| + |InFlight(s.threads)| + |s.retired|;
    CountsBound(s.threads);
    if IsIdle(s.shared) {
      assert multiset(s.shared.queue) == multiset{} && InFlight(s.threads) == multiset{};
    }
  }

  /** A `Wait` returns only from the master, and leaves it between sessions. */
  lemma ReturnEndsTheSession(s: System, step: Step)
    requires Inv(s) && Enabled(s, step) && |Next(s, step).sessions| != |s.sessions|
    ensures var r := Next(s, step);
            && r.threads[0].Outside? && r.added == multiset{}
            && r.sessions == s.sessions + [Session(s.added, AllOk(s.added))]
            && IsIdle(r.shared)
  {
    NextKeepsInv(s, step);
    hide Next, Balanced, MasterOk, IsIdle, Inside, Sleeping, InFlight;
    var r := Next(s, step);
    ReturnShape(s, step);
    assert r.sessions[|s.sessions|] in r.sessions;
    IdleBetweenSessions(r);
  }

  lemma ReturnShape(s: System, step: Step)
    requires Enabled(s, step) && Counted(s) && |s.threads| > 0 && |Next(s, step).sessions| != |s.sessions|
    ensures var r := Next(s, step);
            && |r.threads| > 0 && r.threads[0].Outside? && r.added == multiset{} && |r.sessions| == |s.sessions| + 1
            && r.sessions == s.sessions + [Session(s.added, r.sessions[|s.sessions|].result)]
  {
    hide Inside, Sleeping, Evaluate, LastReversed, BatchCount;
  }

  /** A master asleep without a notification always has a worker with a batch in hand. */
  lemma SleepingMasterIsWaitedOn(s: System)
    requires Inv(s) && s.threads[0].Asleep? && !s.threads[0].notified
    ensures exists w :: 1 <= w < |s.threads| && s.threads[w].Running? && s.threads[w].batch != []
  {
    assert |InFlight(s.threads)| > 0;
    SomeoneRuns(s.threads);
    var w :| 0 <= w < |s.threads| && s.threads[w].Running?;
    assert s.threads[w] in s.threads;
  }

  /** Work still to be done: a queued check counts twice, a check in hand once. */
  function Effort(s: System): nat {
    2 * |s.shared.queue| + |InFlight(s.threads)|
  }

  lemma LeaveEffort(s: System, t: nat, mid: Shared, batch: seq<Check>)
    requires t < |s.threads| && mid.nTotal >= 0 && mid.nIdle >= 0
    ensures Effort(Leave(s, t, mid, batch)) <= 2 * |mid.queue| + |InFlight(s.threads[t := Outside])|
  {
    AttemptSpec(mid, t == 0, s.nBatchSize);
    var r := Attempt(mid, t == 0, s.nBatchSize);
    MovedSpec(s.threads, t, PhaseAfter(r.1), batch != [] && mid.nTodo == 0 && t != 0);
    assert |InFlight(Leave(s, t, mid, batch).threads)|
        == |InFlight(s.threads[t := Outside])| + |BatchOf(PhaseAfter(r.1))|;
  }

  lemma BatchIsNotEmpty(s: System, t: nat)
    requires Inv(s) && t < |s.threads| && s.threads[t].Running?
    ensures BatchOf(s.threads[t]) != []
  {
    assert s.threads[t] in s.threads;
  }

  lemma EnterEffort(s: System, t: nat)
    requires Inv(s) && Enabled(s, Enter(t))
    ensures Effort(Next(s, Enter(t))) <= Effort(s)
    ensures s.threads[t].Running? ==> Effort(Next(s, Enter(t))) < Effort(s)
  {
    hide Leave, InFlight, Inside, Sleeping, Balanced, Truthful, MasterOk;
    TakeOut(s.threads, t);
    if s.threads[t].Running? {
      BatchIsNotEmpty(s, t);
    }
    LeaveEffort(s, t, CleanedUp(s, t), BatchOf(s.threads[t]));
  }

  lemma WakeEffort(s: System, t: nat)
    requires Inv(s) && Enabled(s, Wake(t))
    ensures Effort(Next(s, Wake(t))) <= Effort(s)
  {
    hide Leave, InFlight, Inside, Sleeping, Balanced, Truthful, MasterOk;
    TakeOut(s.threads, t);
    LeaveEffort(s, t, s.shared.(nIdle := s.shared.nIdle - 1), []);
  }

  /** Without new checks no step undoes work, and entering with a batch in hand always gets some done. */
  lemma EffortFalls(s: System, step: Step)
    requires Inv(s) && Enabled(s, step) && !step.AddChecks?
    ensures Effort(Next(s, step)) <= Effort(s)
    ensures step.Enter? && s.threads[step.t].Running? ==> Effort(Next(s, step)) < Effort(s)
  {
    hide Next, Effort, Balanced, Truthful, MasterOk;
    match step {
      case Enter(t) => EnterEffort(s, t);
      case Wake(t) => WakeEffort(s, t);
    }
  }

  /**
   A master inside `Wait` is never stuck: it can finish its own batch, or its notification makes it
   leave the wait for good, or some worker can finish a batch.  Each of these steps either ends the
   session or lowers the effort left.
   */
  lemma WaitAlwaysProgresses(s: System)
    requires Inv(s) && !s.threads[0].Outside?
    ensures exists step :: Enabled(s, step) && !step.AddChecks?
                           && (step.Wake? ==> s.threads[step.t].notified)
                           && (Effort(Next(s, step)) < Effort(s) || |Next(s, step).sessions| > |s.sessions|)
  {
    if s.threads[0].Running? {
      EffortFalls(s, Enter(0));
      assert Enabled(s, Enter(0));
    } else if s.shared.nTodo > 0 {
      assert s.shared.queue == [];
      SomeoneRuns(s.threads);
      var w :| 0 <= w < |s.threads| && s.threads[w].Running?;
      EffortFalls(s, Enter(w));
      assert Enabled(s, Enter(w));
    } else {
      assert Enabled(s, Wake(0));
      assert |Next(s, Wake(0)).sessions| > |s.sessions|;
    }
  }
}
