/**
 Runs of the verification queue of `src/checkqueue.h`: how many batches a session can take, and that `Wait`
 comes back on every schedule that starves no thread which has something to do.
 */
module CheckQueueRuns {
  import opened CheckQueue

  // ----- finished batches -----

  predicate FinishesBatch(s: System, step: Step) {
    step.Enter? && step.t < |s.threads| && s.threads[step.t].Running?
  }

  ghost function Finished(s: System, steps: seq<Step>): nat
    requires Inv(s) && RunEnabled(s, steps)
    decreases |steps|
  {
    if steps == [] then 0
    else
      NextKeepsInv(s, steps[0]);
      (if FinishesBatch(s, steps[0]) then 1 else 0) + Finished(Next(s, steps[0]), steps[1..])
  }

  /** Without new checks, a run finishes at most as many batches as it lowers the effort. */
  lemma {:induction false} BatchesAreBounded(s: System, steps: seq<Step>)
    requires Inv(s) && RunEnabled(s, steps) && forall step | step in steps :: !step.AddChecks?
    ensures Finished(s, steps) + Effort(Run(s, steps)) <= Effort(s)
    decreases |steps|
  {
    hide Balanced, Truthful, MasterOk, Next, Effort, Enabled;
    if steps != [] {
      NextKeepsInv(s, steps[0]);
      EffortFalls(s, steps[0]);
      BatchesAreBounded(Next(s, steps[0]), steps[1..]);
    }
  }

  // ----- endless runs -----

  /** The state at every moment, and the step taken there. */
  datatype Trace = Trace(at: nat -> System, step: nat -> Step)

  ghost predicate Goes(r: Trace, i: nat) {
    Inv(r.at(i)) && Enabled(r.at(i), r.step(i)) && r.at(i + 1) == Next(r.at(i), r.step(i))
  }

  ghost predicate IsRun(r: Trace) {
    forall i: nat :: Goes(r, i)
  }

  predicate MovesThread(step: Step, t: nat) {
    !step.AddChecks? && step.t == t
  }

  /** A thread that has something to do: a batch to finish, or a notification to wake up to. */
  predicate Ready(s: System, t: nat) {
    t < |s.threads| && (s.threads[t].Running? || (s.threads[t].Asleep? && s.threads[t].notified))
  }

  /** Every thread that has something to do gets its turn, sooner or later. */
  ghost predicate Fair(r: Trace) {
    forall i: nat, t: nat :: Ready(r.at(i), t) ==> GetsTurn(r, i, t)
  }

  ghost predicate GetsTurn(r: Trace, i: nat, t: nat) {
    exists j: nat :: i <= j && MovesThread(r.step(j), t)
  }

  /** The first turn of a thread from a moment on. */
  lemma FirstTurn(r: Trace, i: nat, j: nat, t: nat) returns (k: nat)
    requires i <= j && MovesThread(r.step(j), t)
    ensures i <= k <= j && MovesThread(r.step(k), t) && forall m: nat | i <= m < k :: !MovesThread(r.step(m), t)
    decreases j - i
  {
    if MovesThread(r.step(i), t) {
      k := i;
    } else {
      k := FirstTurn(r, i + 1, j, t);
    }
  }

  // ----- one step of the others -----

  /** Some `Wait` has returned between the two states. */
  predicate Returned(s: System, u: System) { |u.sessions| > |s.sessions| }

  /** The master is still inside, thread `t` is as it was, or notified meanwhile, and no work has been added. */
  ghost predicate Unmoved(s: System, u: System, t: nat) {
    && |u.sessions| == |s.sessions| && |u.threads| == |s.threads| && |u.threads| > 0 && t < |u.threads|
    && !u.threads[0].Outside? && Effort(u) <= Effort(s)
    && (u.threads[t] == s.threads[t] || (t == 0 && s.threads[0].Asleep? && u.threads[0] == Asleep(true)))
  }

  lemma OthersMove(s: System, step: Step, t: nat)
    requires Inv(s) && Enabled(s, step) && t < |s.threads| && !s.threads[0].Outside? && !MovesThread(step, t)
    ensures var u := Next(s, step); Returned(s, u) || Unmoved(s, u, t)
  {
    StepShape(s, step, t);
    EffortFalls(s, step);
  }

  lemma StepShape(s: System, step: Step, t: nat)
    requires Enabled(s, step) && Counted(s) && t < |s.threads| && !s.threads[0].Outside? && !MovesThread(step, t)
    ensures var u := Next(s, step);
            && |u.threads| == |s.threads| && |u.sessions| >= |s.sessions|
            && (|u.sessions| == |s.sessions| ==> !u.threads[0].Outside?)
            && (u.threads[t] == s.threads[t] || (t == 0 && s.threads[0].Asleep? && u.threads[0] == Asleep(true)))
  {
    hide Inside, Sleeping, InFlight, Evaluate, LastReversed, BatchCount;
  }

  lemma UnmovedTwice(s: System, u: System, v: System, t: nat)
    requires Unmoved(s, u, t) && (Returned(u, v) || Unmoved(u, v, t))
    ensures Returned(s, v) || Unmoved(s, v, t)
  {
    hide Effort;
  }

  lemma {:induction false} WhileOthersMove(r: Trace, i: nat, j: nat, t: nat)
    requires IsRun(r) && i <= j && t < |r.at(i).threads| && |r.at(i).threads| > 0 && !r.at(i).threads[0].Outside?
    requires forall m: nat | i <= m < j :: !MovesThread(r.step(m), t)
    ensures (exists m: nat :: i <= m <= j && Returned(r.at(i), r.at(m))) || Unmoved(r.at(i), r.at(j), t)
    decreases j - i
  {
    hide Inv, Next, Enabled, Effort;
    if i < j {
      WhileOthersMove(r, i, j - 1, t);
      if Unmoved(r.at(i), r.at(j - 1), t) {
        assert Goes(r, j - 1);
        OthersMove(r.at(j - 1), r.step(j - 1), t);
        UnmovedTwice(r.at(i), r.at(j - 1), r.at(j), t);
      }
    }
  }

  // ----- the turn itself -----

  /** With a batch in hand the turn lowers the effort, and the master stays inside unless `Wait` returns. */
  lemma RunningTurn(s: System, step: Step, t: nat)
    requires Inv(s) && Enabled(s, step) && t < |s.threads| && s.threads[t].Running? && MovesThread(step, t)
    requires !s.threads[0].Outside?
    ensures var u := Next(s, step);
            && Effort(u) < Effort(s)
            && (Returned(s, u) || (|u.sessions| == |s.sessions| && |u.threads| > 0 && !u.threads[0].Outside?))
  {
    EffortFalls(s, step);
    TurnShape(s, step);
  }

  lemma TurnShape(s: System, step: Step)
    requires Enabled(s, step) && Counted(s) && |s.threads| > 0 && !s.threads[0].Outside?
    ensures var u := Next(s, step);
            Returned(s, u) || (|u.sessions| == |s.sessions| && |u.threads| > 0 && !u.threads[0].Outside?)
  {
    hide Inside, Sleeping, InFlight, Evaluate, LastReversed, BatchCount;
  }

  /** Without work left, a master that wakes up returns. */
  lemma NotifiedTurn(s: System, step: Step)
    requires Inv(s) && Enabled(s, step) && s.threads[0].Asleep? && s.shared.nTodo == 0 && MovesThread(step, 0)
    ensures Returned(s, Next(s, step))
  {
    hide InFlight, Inside, Sleeping;
  }

  /** Who brings a waiting master on: itself, or a worker with a batch. */
  lemma Helper(s: System) returns (t: nat)
    requires Inv(s) && !s.threads[0].Outside?
    ensures Ready(s, t) && (s.threads[t].Running? || (t == 0 && s.shared.nTodo == 0))
  {
    if s.threads[0].Running? || s.shared.nTodo == 0 {
      t := 0;
    } else {
      SomeoneRuns(s.threads);
      var w :| 0 <= w < |s.threads| && s.threads[w].Running?;
      t := w;
    }
  }

  lemma NoWorkLeft(s: System)
    requires Inv(s)
    ensures s.shared.nTodo == 0 <==> Effort(s) == 0
  {
  }

  /**
   On every fair run, a `Wait` that the master is inside comes back: with any number of workers, any
   batches, any spurious wake-ups.
   */
  lemma {:induction false} WaitComesBack(r: Trace, i: nat)
    requires IsRun(r) && Fair(r) && |r.at(i).threads| > 0 && !r.at(i).threads[0].Outside?
    ensures exists n: nat :: i < n && Returned(r.at(i), r.at(n))
    decreases Effort(r.at(i))
  {
    hide Inv, Next, Enabled, Effort, Ready, Unmoved;
    assert Goes(r, i);
    var t := Helper(r.at(i));
    assert GetsTurn(r, i, t);
    var j: nat :| i <= j && MovesThread(r.step(j), t);
    var k := FirstTurn(r, i, j, t);
    ReadyExists(r.at(i), t);
    WhileOthersMove(r, i, k, t);
    if m: nat :| i <= m <= k && Returned(r.at(i), r.at(m)) {
      assert i < m;
    } else {
      assert Goes(r, k);
      TurnAfter(r.at(i), r.at(k), r.step(k), t);
      if !Returned(r.at(i), r.at(k + 1)) {
        WaitComesBack(r, k + 1);
        var n: nat :| k + 1 < n && Returned(r.at(k + 1), r.at(n));
        assert i < n && Returned(r.at(i), r.at(n));
      }
    }
  }

  lemma ReadyExists(s: System, t: nat)
    requires Ready(s, t)
    ensures t < |s.threads|
  {
  }

  /** The helper's turn, after others have moved: `Wait` returns, or the effort is lower than at first. */
  lemma TurnAfter(s: System, u: System, step: Step, t: nat)
    requires Inv(s) && Inv(u) && Ready(s, t) && (s.threads[t].Running? || (t == 0 && s.shared.nTodo == 0))
    requires Unmoved(s, u, t) && Enabled(u, step) && MovesThread(step, t)
    ensures var v := Next(u, step);
            || Returned(s, v)
            || (Effort(v) < Effort(s) && |v.sessions| == |s.sessions| && |v.threads| > 0 && !v.threads[0].Outside?)
  {
    hide Inv, Next, Effort, Enabled;
    if s.threads[t].Running? {
      RunningTurn(u, step, t);
    } else {
      NoWorkLeft(s);
      NoWorkLeft(u);
      NotifiedTurn(u, step);
    }
  }
}
