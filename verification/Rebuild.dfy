/** Rebuilding all submissions: `internalRebuildAllSubmissions` (web/rebuild.go:73-111).

    The main goroutine adds the number of submissions to a WaitGroup, starts one goroutine for each
    submission, waits for the WaitGroup and closes the semaphore channel. Each goroutine acquires a
    slot, rebuilds its submission, counts a failure atomically, releases the slot and reports to the
    WaitGroup. Every channel, atomic and WaitGroup operation is one step; how a rebuild ends is
    chosen by the run. */
module Rebuild {
  import opened Counting

  const MAX_CONTAINERS := 10

  datatype PC =
    | NotStarted
    | Acquiring           // about to send on the semaphore channel
    | Rebuilding          // inside `internalRebuildSubmission`
    | Failed              // it returned an error, the failure is not yet counted
    | Releasing           // about to receive from the semaphore channel
    | Reporting           // about to call `wg.Done`
    | Done

  datatype Main = Starting(next: nat) | WaitingForAll | Closing | Returned

  /** `attempts` and `failed` record, for each submission, how often it was rebuilt and whether the
      last rebuild failed; `panicked` records an operation that would panic in Go. */
  datatype State = State(
    main: Main,
    workers: seq<PC>,
    sem: nat,
    closed: bool,
    wg: int,
    errCnt: int,
    attempts: seq<nat>,
    failed: seq<bool>,
    panicked: bool)

  datatype Step = MainStep | Worker(i: nat) | RebuildEnds(i: nat, ok: bool)

  function Init(n: nat): State {
    State(Starting(0), seq(n, _ => NotStarted), 0, false, n, 0, seq(n, _ => 0), seq(n, _ => false), false)
  }

  /** `atomic.AddInt32(&errCnt, 1)`. */
  function AddInt32(x: int): int { Wrap32(x + 1) }

  function Wrap32(x: int): int { (x + 0x8000_0000) % 0x1_0000_0000 - 0x8000_0000 }

  predicate Enabled(s: State, step: Step) {
    match step
    case MainStep => (s.main.WaitingForAll? ==> s.wg == 0) && s.main != Returned
    case Worker(i) =>
      i < |s.workers| &&
      (match s.workers[i]
       case NotStarted => false
       case Acquiring => s.closed || s.sem < MAX_CONTAINERS
       case Rebuilding => false
       case Releasing => s.closed || s.sem > 0
       case Done => false
       case _ => true)
    case RebuildEnds(i, _) => i < |s.workers| == |s.attempts| == |s.failed| && s.workers[i] == Rebuilding
  }

  function Apply(s: State, step: Step): State
    requires Enabled(s, step)
  {
    match step
    case MainStep =>
      (match s.main
       case Starting(k) =>
         if k < |s.workers| then s.(main := Starting(k + 1), workers := s.workers[k := Acquiring])
         else s.(main := WaitingForAll)
       case WaitingForAll => s.(main := Closing)
       case Closing => s.(main := Returned, closed := true, panicked := s.panicked || s.closed)
       case Returned => s)
    case Worker(i) =>
      (match s.workers[i]
       case Acquiring =>
         if s.closed then s.(panicked := true)  // send on closed channel
         else s.(workers := s.workers[i := Rebuilding], sem := s.sem + 1)
       case Failed => s.(workers := s.workers[i := Releasing], errCnt := AddInt32(s.errCnt))
       case Releasing => s.(workers := s.workers[i := Reporting], sem := if s.sem > 0 then s.sem - 1 else 0)
       case Reporting =>
         s.(workers := s.workers[i := Done], wg := s.wg - 1, panicked := s.panicked || s.wg - 1 < 0)
       case _ => s)
    case RebuildEnds(i, ok) =>
      s.(workers := s.workers[i := if ok then Releasing else Failed],
         attempts := s.attempts[i := s.attempts[i] + 1], failed := s.failed[i := !ok])
  }

  ghost predicate Run(n: nat, trace: seq<State>, steps: seq<Step>) {
    && |trace| == |steps| + 1 && trace[0] == Init(n)
    && forall i :: 0 <= i < |steps| ==> Enabled(trace[i], steps[i]) && trace[i + 1] == Apply(trace[i], steps[i])
  }

  // ---------- the invariant ----------

  predicate HoldsSlot(pc: PC) { pc in {Rebuilding, Failed, Releasing} }
  predicate NotDone(pc: PC) { pc != Done }
  predicate Ended(pc: PC) { pc in {Failed, Releasing, Reporting, Done} }

  /** A failure that has been counted. */
  predicate Counted(w: (PC, bool)) { w.0 in {Releasing, Reporting, Done} && w.1 }

  function Outcomes(s: State): seq<(PC, bool)>
    requires |s.workers| == |s.failed|
  {
    seq(|s.workers|, i requires 0 <= i < |s.workers| => (s.workers[i], s.failed[i]))
  }

  ghost predicate Sizes(s: State) { |s.workers| == |s.attempts| == |s.failed| }

  ghost predicate SlotInv(s: State) {
    s.sem == Count(HoldsSlot, s.workers) <= MAX_CONTAINERS
  }

  ghost predicate WaitGroupInv(s: State) {
    && s.wg == Count(NotDone, s.workers)
    && (s.main in {Closing, Returned} ==> s.wg == 0)
    && (s.closed <==> s.main == Returned)
    && !s.panicked
  }

  /** A submission has been rebuilt once if its goroutine is past that point, otherwise not at all. */
  ghost predicate OnceInv(s: State) {
    && Sizes(s)
    && (forall i :: 0 <= i < |s.workers| ==> s.attempts[i] == if Ended(s.workers[i]) then 1 else 0)
    && (forall i :: 0 <= i < |s.workers| && s.workers[i] == Failed ==> s.failed[i])
  }

  /** The main goroutine starts each goroutine once, in order. */
  ghost predicate StartInv(s: State) {
    && (s.main.Starting? ==> s.main.next <= |s.workers|)
    && (forall i :: 0 <= i < |s.workers| ==>
          (s.workers[i] == NotStarted <==> s.main.Starting? && i >= s.main.next))
  }

  /** Each submission is rebuilt once, by its own goroutine, which the main goroutine starts once. */
  ghost predicate AttemptInv(s: State) { OnceInv(s) && StartInv(s) }

  ghost predicate ErrorInv(s: State) {
    Sizes(s) && s.errCnt == Wrap32(Count(Counted, Outcomes(s)))
  }

  ghost predicate Inv(s: State) { SlotInv(s) && WaitGroupInv(s) && AttemptInv(s) && ErrorInv(s) }

  // ---------- every step keeps it ----------

  lemma StepKeepsSlots(s: State, step: Step)
    requires Inv(s) && Enabled(s, step)
    ensures SlotInv(Apply(s, step))
  {
    CountZero(NotDone, s.workers);
    match step
    case MainStep => if s.main.Starting? && s.main.next < |s.workers| {
        CountUpdate(HoldsSlot, s.workers, s.main.next, Acquiring);
      }
    case Worker(i) => CountUpdate(HoldsSlot, s.workers, i, Apply(s, step).workers[i]);
    case RebuildEnds(i, ok) => CountUpdate(HoldsSlot, s.workers, i, Apply(s, step).workers[i]);
  }

  /** The channel is closed only after every goroutine is done, so nothing is ever sent on it then,
      and the WaitGroup counter never becomes negative. */
  lemma StepKeepsWaitGroup(s: State, step: Step)
    requires Inv(s) && Enabled(s, step)
    ensures WaitGroupInv(Apply(s, step))
  {
    CountZero(NotDone, s.workers);
    match step
    case MainStep => if s.main.Starting? && s.main.next < |s.workers| {
        CountUpdate(NotDone, s.workers, s.main.next, Acquiring);
      }
    case Worker(i) =>
      CountUpdate(NotDone, s.workers, i, Apply(s, step).workers[i]);
    case RebuildEnds(i, ok) => CountUpdate(NotDone, s.workers, i, Apply(s, step).workers[i]);
  }

  lemma StepKeepsStarts(s: State, step: Step)
    requires Sizes(s) && StartInv(s) && Enabled(s, step)
    ensures StartInv(Apply(s, step))
  {
    hide AddInt32;
  }

  lemma StepKeepsAttempts(s: State, step: Step)
    requires AttemptInv(s) && Enabled(s, step)
    ensures AttemptInv(Apply(s, step))
  {
    StepKeepsStarts(s, step);
    hide AddInt32;
    assert OnceInv(Apply(s, step)) by {
      if step.MainStep? && s.main.Starting? && s.main.next < |s.workers| {
        assert s.workers[s.main.next] == NotStarted;
      }
    }
    hide Apply, OnceInv, StartInv;
  }

  lemma Wrap32Add(x: int)
    ensures AddInt32(Wrap32(x)) == Wrap32(x + 1)
  {
  }

  /** The goroutine whose outcome a step may change. */
  function Subject(s: State, step: Step): nat {
    match step
    case MainStep => if s.main.Starting? && s.main.next < |s.workers| then s.main.next else 0
    case Worker(k) => k
    case RebuildEnds(k, _) => k
  }

  /** A step changes the outcome of at most one goroutine. */
  lemma OutcomeChange(s: State, step: Step)
    requires AttemptInv(s) && Enabled(s, step) && Subject(s, step) < |s.workers|
    ensures Sizes(Apply(s, step)) && |Apply(s, step).workers| == |s.workers|
    ensures var i := Subject(s, step); Outcomes(Apply(s, step)) == Outcomes(s)[i := Outcomes(Apply(s, step))[i]]
  {
    hide AddInt32, Counted;
  }

  /** A failure is counted once. */
  lemma CountChange(s: State, step: Step)
    requires AttemptInv(s) && Enabled(s, step) && Subject(s, step) < |s.workers|
    ensures Sizes(Apply(s, step)) && |Apply(s, step).workers| == |s.workers|
    ensures var before, after := Outcomes(s)[Subject(s, step)], Outcomes(Apply(s, step))[Subject(s, step)];
            && Apply(s, step).errCnt == (if Counted(after) && !Counted(before) then AddInt32(s.errCnt) else s.errCnt)
            && (Counted(before) ==> Counted(after))
  {
    hide AddInt32;
  }

  lemma StepKeepsErrors(s: State, step: Step)
    requires AttemptInv(s) && ErrorInv(s) && Enabled(s, step)
    ensures ErrorInv(Apply(s, step))
  {
    var s', i := Apply(s, step), Subject(s, step);
    if i < |s.workers| {
      OutcomeChange(s, step);
      CountChange(s, step);
      hide Apply, Wrap32, AttemptInv, Subject;
      CountUpdate(Counted, Outcomes(s), i, Outcomes(s')[i]);
      Wrap32Add(Count(Counted, Outcomes(s)));
    } else {
      assert Outcomes(s') == Outcomes(s);
    }
  }

  lemma InitInv(n: nat)
    ensures Inv(Init(n))
  {
    var s := Init(n);
    CountZero(HoldsSlot, s.workers);
    CountZero(Counted, Outcomes(s));
    CountBound(NotDone, s.workers);
  }

  lemma StepKeepsInv(s: State, step: Step)
    requires Inv(s) && Enabled(s, step)
    ensures Inv(Apply(s, step)) && |Apply(s, step).workers| == |s.workers|
  {
    StepKeepsSlots(s, step);
    StepKeepsWaitGroup(s, step);
    StepKeepsAttempts(s, step);
    StepKeepsErrors(s, step);
    hide SlotInv, WaitGroupInv, AttemptInv, ErrorInv;
  }

  /** In every interleaving of a rebuild of any number of submissions. */
  lemma {:induction false} RunKeepsInv(n: nat, trace: seq<State>, steps: seq<Step>)
    requires Run(n, trace, steps)
    ensures forall i :: 0 <= i < |trace| ==> Inv(trace[i]) && |trace[i].workers| == n
  {
    InitInv(n);
    if |steps| > 0 {
      var k := |steps| - 1;
      RunKeepsInv(n, trace[..k + 1], steps[..k]);
      var s := trace[k];
      assert s == trace[..k + 1][k];
      hide Apply, Inv;
      StepKeepsInv(s, steps[k]);
    }
  }

  // ---------- what it means ----------

  /** At most ten rebuilds run at once, and no operation ever panics: nothing is sent on the closed
      semaphore, it is closed once, and the WaitGroup is never overdrawn. */
  lemma Safety(n: nat, trace: seq<State>, steps: seq<Step>, s: State)
    requires Run(n, trace, steps) && s in trace
    ensures |At((pc: PC) => pc == Rebuilding, s.workers)| <= 10
    ensures !s.panicked
    ensures s.closed ==> s.sem == 0 && forall pc :: pc in s.workers ==> pc == Done
  {
    RunKeepsInv(n, trace, steps);
    hide Apply, Enabled, Run;
    AtMonotone((pc: PC) => pc == Rebuilding, HoldsSlot, s.workers);
    CountZero(NotDone, s.workers);
    CountZero(HoldsSlot, s.workers);
  }

  /** On return every submission was rebuilt exactly once, and the error count is the number of
      failed rebuilds (as a 32-bit counter: exactly that number below 2^31 submissions). */
  lemma OnReturn(n: nat, trace: seq<State>, steps: seq<Step>, s: State)
    requires Run(n, trace, steps) && s in trace && s.main == Returned
    ensures |s.attempts| == |s.failed| == n && forall i :: 0 <= i < n ==> s.attempts[i] == 1
    ensures s.errCnt == Wrap32(|At((f: bool) => f, s.failed)|)
    ensures n < 0x8000_0000 ==> s.errCnt == |At((f: bool) => f, s.failed)|
  {
    RunKeepsInv(n, trace, steps);
    hide Apply, Enabled, Run;
    CountZero(NotDone, s.workers);
    CountIsCardinality(Counted, Outcomes(s));
    assert At(Counted, Outcomes(s)) == At((f: bool) => f, s.failed);
    CountIsCardinality((f: bool) => f, s.failed);
    CountBound((f: bool) => f, s.failed);
  }

  // ---------- it returns ----------

  /** A goroutine that waits for a slot can start exactly if fewer than ten hold one. */
  lemma StartsExactlyWhen(n: nat, trace: seq<State>, steps: seq<Step>, s: State, i: nat)
    requires Run(n, trace, steps) && s in trace && i < n
    ensures |s.workers| == n
    ensures s.workers[i] == Acquiring ==> (Enabled(s, Worker(i)) <==> |At(HoldsSlot, s.workers)| < 10)
  {
    RunKeepsInv(n, trace, steps);
    hide Run, ErrorInv, AttemptInv;
    CountIsCardinality(HoldsSlot, s.workers);
    CountZero(NotDone, s.workers);
  }

  /** Until it returns, some step is possible. */
  lemma NoDeadlock(n: nat, trace: seq<State>, steps: seq<Step>, s: State) returns (step: Step)
    requires Run(n, trace, steps) && s in trace && s.main != Returned
    ensures Enabled(s, step)
  {
    RunKeepsInv(n, trace, steps);
    hide Run, ErrorInv;
    CountZero(NotDone, s.workers);
    CountZero(HoldsSlot, s.workers);
    if s.main.WaitingForAll? && s.wg != 0 {
      var i :| 0 <= i < |s.workers| && NotDone(s.workers[i]);
      if s.workers[i] == Acquiring && s.sem >= MAX_CONTAINERS {
        i :| 0 <= i < |s.workers| && HoldsSlot(s.workers[i]);
      }
      step := if s.workers[i] == Rebuilding then RebuildEnds(i, true) else Worker(i);
    } else {
      step := MainStep;
    }
  }

  function Rank(pc: PC): nat {
    match pc
    case NotStarted => 0
    case Acquiring => 1
    case Rebuilding => 2
    case Failed => 3
    case Releasing => 4
    case Reporting => 5
    case Done => 6
  }

  function MainRank(main: Main): nat {
    match main
    case Starting(_) => 0
    case WaitingForAll => 1
    case Closing => 2
    case Returned => 3
  }

  lemma StepCounts(s: State, step: Step)
    requires Inv(s) && Enabled(s, step)
    ensures MainRank(Apply(s, step).main) + Total(Rank, Apply(s, step).workers) >
            MainRank(s.main) + Total(Rank, s.workers)
  {
    CountZero(NotDone, s.workers);
    hide ErrorInv, AddInt32, SlotInv;
    match step
    case MainStep =>
      if s.main.Starting? && s.main.next < |s.workers| {
        TotalUpdate(Rank, s.workers, s.main.next, Acquiring);
      }
    case Worker(i) => TotalUpdate(Rank, s.workers, i, Apply(s, step).workers[i]);
    case RebuildEnds(i, ok) => TotalUpdate(Rank, s.workers, i, Apply(s, step).workers[i]);
  }

  lemma {:induction false} RunCounts(n: nat, trace: seq<State>, steps: seq<Step>, i: nat)
    requires Run(n, trace, steps) && i < |trace|
    ensures i <= MainRank(trace[i].main) + Total(Rank, trace[i].workers)
  {
    if i > 0 {
      RunCounts(n, trace, steps, i - 1);
      RunKeepsInv(n, trace, steps);
      assert trace[i] == Apply(trace[i - 1], steps[i - 1]);
      hide Apply, Inv;
      StepCounts(trace[i - 1], steps[i - 1]);
    }
  }

  /** It returns after at most six steps for each submission and three more, whatever the order of the steps. */
  lemma RunsEnd(n: nat, trace: seq<State>, steps: seq<Step>)
    requires Run(n, trace, steps)
    ensures |steps| <= 6 * n + 3
    ensures (forall step :: !Enabled(trace[|steps|], step)) ==> trace[|steps|].main == Returned
  {
    RunCounts(n, trace, steps, |steps|);
    RunKeepsInv(n, trace, steps);
    var s := trace[|steps|];
    TotalBound(Rank, s.workers, 6);
    if s.main != Returned {
      var step := NoDeadlock(n, trace, steps, s);
    }
  }
}
