/** Webhook push deliveries: the push branch of `Handle` (web/hooks/github.go:70-89) and the
    duplicate map it shares (web/hooks/duplicate_map.go).

    Any number of deliveries run concurrently, one HTTP handler each. A handler takes the mutex,
    looks its commit up in the duplicate map and, if the commit is new, inserts it and starts a
    goroutine. The goroutine acquires a semaphore slot, runs `handlePush`, releases the slot and,
    under the mutex again, removes its commit. Every lock, channel and map operation is one step. */
module PushHook {
  import opened Counting

  const MAX_CONCURRENT_TEST_RUNS := 5

  // ---------- the duplicate map as an object ----------

  /** Whether the commit is in the map, and the map with the commit in it. */
  function Looked(dup: set<string>, commit: string): (bool, set<string>) { (commit in dup, dup + {commit}) }

  /** The map without the commit. */
  function Forgotten(dup: set<string>, commit: string): (r: set<string>)
    ensures forall c :: c in r <==> c in dup && c != commit
  {
    dup - {commit}
  }

  /** Both methods hold the mutex from start to end. The protocol below takes them apart into single steps;
      DuplicateIsAtomic and RemoveIsAtomic show that it comes to the same. */
  class Duplicates {
    var dup: set<string>

    constructor ()
      ensures dup == {}
    {
      dup := {};
    }

    method Duplicate(commitID: string) returns (duplicate: bool)
      modifies this
      ensures duplicate == Looked(old(dup), commitID).0 && dup == Looked(old(dup), commitID).1
    {
      if commitID in dup {
        return true;
      }
      dup := dup + {commitID};
      return false;
    }

    method Remove(commitID: string)
      modifies this
      ensures dup == Forgotten(old(dup), commitID)
    {
      dup := dup - {commitID};
    }
  }

  // ---------- the protocol ----------

  datatype PC =
    | Arrived     // about to lock for `Duplicate`
    | Checking    // holds the mutex, has not looked yet
    | Rejecting   // holds the mutex, found a duplicate
    | Inserting   // holds the mutex, found no duplicate, has not inserted yet
    | Accepting   // holds the mutex, has inserted its commit
    | Rejected
    | Waiting     // goroutine started, about to acquire the semaphore
    | Running     // inside `handlePush`
    | Finished    // `handlePush` returned, the slot is still held
    | Released    // slot released, about to lock for `Remove`
    | Removing    // holds the mutex, has not deleted yet
    | Removed     // holds the mutex, has deleted its commit
    | Done

  datatype Delivery = Delivery(commit: string, pc: PC)

  datatype State = State(
    deliveries: seq<Delivery>,
    mutex: set<nat>,      // who is inside a critical section
    dup: set<string>,     // the duplicate map
    sem: nat,             // occupied slots of the semaphore channel
    handled: seq<nat>)    // history: deliveries in the order in which `handlePush` was called for them

  datatype Step = Deliver(commit: string) | Advance(t: nat)

  const INIT := State([], {}, {}, 0, [])

  predicate HoldsMutex(d: Delivery) { d.pc in {Checking, Rejecting, Inserting, Accepting, Removing, Removed} }
  predicate HoldsSlot(d: Delivery) { d.pc in {Running, Finished} }
  /** The commit was inserted for this delivery and is not yet deleted. */
  predicate Live(d: Delivery) { d.pc in {Accepting, Waiting, Running, Finished, Released, Removing} }
  predicate WasAccepted(d: Delivery) { Live(d) || d.pc in {Removed, Done} }
  predicate WasHandled(d: Delivery) { d.pc in {Running, Finished, Released, Removing, Removed, Done} }
  predicate Over(d: Delivery) { d.pc in {Rejected, Done} }

  predicate Enabled(s: State, step: Step) {
    match step
    case Deliver(_) => true
    case Advance(t) =>
      t < |s.deliveries| &&
      match s.deliveries[t].pc
      case Arrived => s.mutex == {}
      case Waiting => s.sem < MAX_CONCURRENT_TEST_RUNS
      case Released => s.mutex == {}
      case Rejected => false
      case Done => false
      case _ => true
  }

  function Moved(s: State, t: nat, pc: PC): seq<Delivery>
    requires t < |s.deliveries|
  {
    s.deliveries[t := s.deliveries[t].(pc := pc)]
  }

  function Apply(s: State, step: Step): State
    requires Enabled(s, step)
  {
    match step
    case Deliver(commit) => s.(deliveries := s.deliveries + [Delivery(commit, Arrived)])
    case Advance(t) =>
      var commit := s.deliveries[t].commit;
      match s.deliveries[t].pc
      case Arrived => s.(deliveries := Moved(s, t, Checking), mutex := s.mutex + {t})
      case Checking =>
        s.(deliveries := Moved(s, t, if commit in s.dup then Rejecting else Inserting))
      case Inserting => s.(deliveries := Moved(s, t, Accepting), dup := s.dup + {commit})
      case Rejecting => s.(deliveries := Moved(s, t, Rejected), mutex := s.mutex - {t})
      case Accepting => s.(deliveries := Moved(s, t, Waiting), mutex := s.mutex - {t})
      case Waiting => s.(deliveries := Moved(s, t, Running), sem := s.sem + 1, handled := s.handled + [t])
      case Running => s.(deliveries := Moved(s, t, Finished))
      case Finished => s.(deliveries := Moved(s, t, Released), sem := if s.sem > 0 then s.sem - 1 else 0)
      case Released => s.(deliveries := Moved(s, t, Removing), mutex := s.mutex + {t})
      case Removing => s.(deliveries := Moved(s, t, Removed), dup := s.dup - {commit})
      case Removed => s.(deliveries := Moved(s, t, Done), mutex := s.mutex - {t})
  }

  /** A finite run of the protocol, any interleaving of any number of deliveries. */
  ghost predicate Run(trace: seq<State>, steps: seq<Step>) {
    && |trace| == |steps| + 1 && trace[0] == INIT
    && forall i :: 0 <= i < |steps| ==> Enabled(trace[i], steps[i]) && trace[i + 1] == Apply(trace[i], steps[i])
  }

  // ---------- the invariant ----------

  /** The mutex is held by at most one delivery, and only inside a critical section. */
  ghost predicate MutexInv(s: State) {
    && (forall t :: t in s.mutex <==> 0 <= t < |s.deliveries| && HoldsMutex(s.deliveries[t]))
    && (forall t, u :: t in s.mutex && u in s.mutex ==> t == u)
  }

  ghost predicate SemaphoreInv(s: State) {
    s.sem == Count(HoldsSlot, s.deliveries) <= MAX_CONCURRENT_TEST_RUNS
  }

  ghost predicate LiveFor(ds: seq<Delivery>, t: nat, commit: string) {
    t < |ds| && Live(ds[t]) && ds[t].commit == commit
  }

  /** The duplicate map is exactly the set of live commits, no two live deliveries share one, and
      what was looked up before inserting is still true when inserting. */
  ghost predicate DuplicateInv(s: State) {
    && (forall t: nat, c :: LiveFor(s.deliveries, t, c) ==> c in s.dup)
    && (forall c :: c in s.dup ==> exists t: nat :: LiveFor(s.deliveries, t, c))
    && (forall t: nat, u: nat, c :: LiveFor(s.deliveries, t, c) && LiveFor(s.deliveries, u, c) ==> t == u)
    && (forall t :: 0 <= t < |s.deliveries| && s.deliveries[t].pc == Inserting ==> s.deliveries[t].commit !in s.dup)
  }

  ghost predicate AcceptedFor(ds: seq<Delivery>, commit: string) {
    exists u :: 0 <= u < |ds| && WasAccepted(ds[u]) && ds[u].commit == commit
  }

  /** A rejected delivery is covered by an accepted delivery of the same commit. */
  ghost predicate CoverInv(s: State) {
    forall t :: 0 <= t < |s.deliveries| && s.deliveries[t].pc in {Rejecting, Rejected} ==>
      AcceptedFor(s.deliveries, s.deliveries[t].commit)
  }

  /** `handlePush` is called at most once for each delivery, and exactly for those past that point. */
  ghost predicate HandledInv(s: State) {
    && (forall t: nat :: t in s.handled <==> t < |s.deliveries| && WasHandled(s.deliveries[t]))
    && (forall i, j :: 0 <= i < j < |s.handled| ==> s.handled[i] != s.handled[j])
  }

  ghost predicate Inv(s: State) {
    MutexInv(s) && SemaphoreInv(s) && DuplicateInv(s) && CoverInv(s) && HandledInv(s)
  }

  // ---------- every step keeps it ----------

  lemma StepKeepsMutex(s: State, step: Step)
    requires MutexInv(s) && Enabled(s, step)
    ensures MutexInv(Apply(s, step))
  {
  }

  lemma StepKeepsSemaphore(s: State, step: Step)
    requires SemaphoreInv(s) && Enabled(s, step)
    ensures SemaphoreInv(Apply(s, step))
  {
    match step
    case Deliver(commit) =>
      CountSnoc(HoldsSlot, s.deliveries, Delivery(commit, Arrived));
    case Advance(t) =>
      CountUpdate(HoldsSlot, s.deliveries, t, Apply(s, step).deliveries[t]);
  }

  /** Only inserting and deleting change which deliveries are live. */
  ghost predicate LiveAfter(s: State, step: Step, t: nat, c: string) {
    if step == Advance(t) && t < |s.deliveries| && s.deliveries[t].pc == Inserting then s.deliveries[t].commit == c
    else LiveFor(s.deliveries, t, c) && !(step == Advance(t) && s.deliveries[t].pc == Removing)
  }

  lemma LiveChange(s: State, step: Step)
    requires Enabled(s, step)
    ensures forall t: nat, c :: LiveFor(Apply(s, step).deliveries, t, c) <==> LiveAfter(s, step, t, c)
  {
  }

  /** This is where the mutex is needed: between looking up and inserting, nobody else inserts. */
  lemma StepKeepsDuplicates(s: State, step: Step)
    requires MutexInv(s) && DuplicateInv(s) && Enabled(s, step)
    ensures DuplicateInv(Apply(s, step))
  {
    var s' := Apply(s, step);
    LiveChange(s, step);
    assert step.Advance? && Live(s.deliveries[step.t]) ==> LiveFor(s.deliveries, step.t, s.deliveries[step.t].commit);
    forall c | c in s'.dup ensures exists t: nat :: LiveFor(s'.deliveries, t, c) {
      if c in s.dup {
        var t: nat :| LiveFor(s.deliveries, t, c);
        assert LiveAfter(s, step, t, c);
      } else {
        assert LiveAfter(s, step, step.t, c);
      }
    }
  }

  lemma AcceptedStays(s: State, step: Step, commit: string)
    requires Enabled(s, step) && AcceptedFor(s.deliveries, commit)
    ensures AcceptedFor(Apply(s, step).deliveries, commit)
  {
    var u :| 0 <= u < |s.deliveries| && WasAccepted(s.deliveries[u]) && s.deliveries[u].commit == commit;
    assert WasAccepted(Apply(s, step).deliveries[u]);
  }

  lemma StepKeepsCover(s: State, step: Step)
    requires DuplicateInv(s) && CoverInv(s) && Enabled(s, step)
    ensures CoverInv(Apply(s, step))
  {
    var s' := Apply(s, step);
    forall t | 0 <= t < |s'.deliveries| && s'.deliveries[t].pc in {Rejecting, Rejected}
      ensures AcceptedFor(s'.deliveries, s'.deliveries[t].commit)
    {
      var commit := s.deliveries[t].commit;
      if s.deliveries[t].pc == Checking {
        var u: nat :| LiveFor(s.deliveries, u, commit);
        assert WasAccepted(s.deliveries[u]);
      }
      AcceptedStays(s, step, commit);
    }
  }

  lemma StepKeepsHandled(s: State, step: Step)
    requires HandledInv(s) && Enabled(s, step)
    ensures HandledInv(Apply(s, step))
  {
    var s' := Apply(s, step);
    forall t: nat ensures t in s'.handled <==> t < |s'.deliveries| && WasHandled(s'.deliveries[t]) {
      assert t in s.handled <==> t < |s.deliveries| && WasHandled(s.deliveries[t]);
    }
  }

  lemma StepKeepsInv(s: State, step: Step)
    requires Inv(s) && Enabled(s, step)
    ensures Inv(Apply(s, step))
  {
    hide Apply, MutexInv, SemaphoreInv, DuplicateInv, CoverInv, HandledInv;
    StepKeepsMutex(s, step);
    StepKeepsSemaphore(s, step);
    StepKeepsDuplicates(s, step);
    StepKeepsCover(s, step);
    StepKeepsHandled(s, step);
  }

  /** In every interleaving of any number of deliveries, every state satisfies the invariant. */
  lemma {:induction false} RunKeepsInv(trace: seq<State>, steps: seq<Step>)
    requires Run(trace, steps)
    ensures forall i :: 0 <= i < |trace| ==> Inv(trace[i])
  {
    if |steps| == 0 {
      assert Inv(trace[0]);
    } else {
      var n := |steps| - 1;
      RunKeepsInv(trace[..n + 1], steps[..n]);
      var s := trace[n];
      assert s == trace[..n + 1][n];
      hide Apply, Inv;
      StepKeepsInv(s, steps[n]);
    }
  }

  // ---------- what it means ----------

  /** At most five `handlePush` calls run at once, the occupancy of the semaphore is the number of
      deliveries holding a slot, and no two deliveries in progress share a commit. */
  lemma ConcurrencyLimit(trace: seq<State>, steps: seq<Step>, i: nat)
    requires Run(trace, steps) && i < |trace|
    ensures trace[i].sem == |At(HoldsSlot, trace[i].deliveries)|
    ensures |At((d: Delivery) => d.pc == Running, trace[i].deliveries)| <= 5
    ensures forall t, u :: t in At(Live, trace[i].deliveries) && u in At(Live, trace[i].deliveries) && t != u ==>
              trace[i].deliveries[t].commit != trace[i].deliveries[u].commit
  {
    RunKeepsInv(trace, steps);
    var ds := trace[i].deliveries;
    CountIsCardinality(HoldsSlot, ds);
    AtMonotone((d: Delivery) => d.pc == Running, HoldsSlot, ds);
    assert forall t: nat :: t < |ds| && Live(ds[t]) ==> LiveFor(ds, t, ds[t].commit);
  }

  /** A delivery of the commit for which `handlePush` was called. */
  ghost predicate HandledFor(s: State, commit: string) {
    exists u: nat :: u in s.handled && u < |s.deliveries| && s.deliveries[u].commit == commit
  }

  lemma OverMeansHandled(s: State, t: nat)
    requires CoverInv(s) && HandledInv(s)
    requires t < |s.deliveries| && forall u :: 0 <= u < |s.deliveries| ==> Over(s.deliveries[u])
    ensures HandledFor(s, s.deliveries[t].commit)
  {
    if s.deliveries[t].pc == Rejected {
      var commit := s.deliveries[t].commit;
      var u: nat :| u < |s.deliveries| && WasAccepted(s.deliveries[u]) && s.deliveries[u].commit == commit;
      assert u in s.handled;
    } else {
      assert t in s.handled;
    }
  }

  lemma NothingLeft(s: State)
    requires Inv(s) && forall t :: 0 <= t < |s.deliveries| ==> Over(s.deliveries[t])
    ensures s.dup == {} && s.sem == 0 && s.mutex == {}
    ensures forall j, k :: 0 <= j < k < |s.handled| ==> s.handled[j] != s.handled[k]
  {
    CountZero(HoldsSlot, s.deliveries);
    hide CoverInv;
    assert forall t: nat, c :: !LiveFor(s.deliveries, t, c);
  }

  /** When all deliveries are over, nothing is left in the duplicate map or the semaphore, every
      delivered commit was handled, and no delivery was handled twice. */
  lemma Quiescence(trace: seq<State>, steps: seq<Step>, s: State)
    requires Run(trace, steps) && s in trace
    requires forall t :: 0 <= t < |s.deliveries| ==> Over(s.deliveries[t])
    ensures s.dup == {} && s.sem == 0 && s.mutex == {}
    ensures forall t :: 0 <= t < |s.deliveries| ==> HandledFor(s, s.deliveries[t].commit)
    ensures forall j, k :: 0 <= j < k < |s.handled| ==> s.handled[j] != s.handled[k]
  {
    RunKeepsInv(trace, steps);
    assert Inv(s);
    hide Run, MutexInv, SemaphoreInv, DuplicateInv, CoverInv, HandledInv, HandledFor, Over;
    NothingLeft(s);
    forall t | 0 <= t < |s.deliveries| ensures HandledFor(s, s.deliveries[t].commit) {
      OverMeansHandled(s, t);
    }
  }

  // ---------- every delivery gets through ----------

  /** A delivery that waits can start exactly if fewer than five hold a slot. */
  lemma StartsExactlyWhen(trace: seq<State>, steps: seq<Step>, i: nat, t: nat)
    requires Run(trace, steps) && i < |trace|
    requires t < |trace[i].deliveries| && trace[i].deliveries[t].pc == Waiting
    ensures Enabled(trace[i], Advance(t)) <==> |At(HoldsSlot, trace[i].deliveries)| < 5
  {
    hide Run;
    ConcurrencyLimit(trace, steps, i);
  }

  /** As long as a delivery is not over, one of them can go on. */
  lemma NoDeadlock(trace: seq<State>, steps: seq<Step>, i: nat, t: nat) returns (u: nat)
    requires Run(trace, steps) && i < |trace|
    requires t < |trace[i].deliveries| && !Over(trace[i].deliveries[t])
    ensures Enabled(trace[i], Advance(u))
  {
    RunKeepsInv(trace, steps);
    var s := trace[i];
    assert Inv(s);
    hide Run, DuplicateInv, CoverInv, HandledInv;
    CountZero(HoldsSlot, s.deliveries);
    if s.mutex != {} {
      u :| u in s.mutex;
    } else if s.deliveries[t].pc == Waiting && s.sem > 0 {
      u :| u < |s.deliveries| && HoldsSlot(s.deliveries[u]);
    } else {
      u := t;
    }
  }

  /** The number of steps from the arrival of a delivery. */
  function Rank(d: Delivery): nat {
    match d.pc
    case Arrived => 0
    case Checking => 1
    case Rejecting => 2
    case Inserting => 2
    case Accepting => 3
    case Rejected => 3
    case Waiting => 4
    case Running => 5
    case Finished => 6
    case Released => 7
    case Removing => 8
    case Removed => 9
    case Done => 10
  }

  lemma StepCounts(s: State, step: Step)
    requires Enabled(s, step)
    ensures |Apply(s, step).deliveries| + Total(Rank, Apply(s, step).deliveries) ==
            |s.deliveries| + Total(Rank, s.deliveries) + 1
  {
    match step
    case Deliver(commit) => TotalSnoc(Rank, s.deliveries, Delivery(commit, Arrived));
    case Advance(t) => TotalUpdate(Rank, s.deliveries, t, Apply(s, step).deliveries[t]);
  }

  lemma {:induction false} RunCounts(trace: seq<State>, steps: seq<Step>, i: nat)
    requires Run(trace, steps) && i < |trace|
    ensures i == |trace[i].deliveries| + Total(Rank, trace[i].deliveries)
  {
    if i > 0 {
      RunCounts(trace, steps, i - 1);
      assert trace[i] == Apply(trace[i - 1], steps[i - 1]);
      hide Apply;
      StepCounts(trace[i - 1], steps[i - 1]);
    }
  }

  /** A run has at most eleven steps for each delivery. As one can always go on, without new deliveries all of them
      are over after that many steps, whatever the order of the steps. */
  lemma RunsEnd(trace: seq<State>, steps: seq<Step>)
    requires Run(trace, steps)
    ensures |steps| <= 11 * |trace[|steps|].deliveries|
    ensures (forall u :: !Enabled(trace[|steps|], Advance(u))) ==>
              forall t :: 0 <= t < |trace[|steps|].deliveries| ==> Over(trace[|steps|].deliveries[t])
  {
    RunCounts(trace, steps, |steps|);
    var s := trace[|steps|];
    TotalBound(Rank, s.deliveries, 10);
    if t :| 0 <= t < |s.deliveries| && !Over(s.deliveries[t]) {
      var u := NoDeadlock(trace, steps, |steps|, t);
    }
  }

  // ---------- the critical sections are atomic ----------

  /** What the map is while a delivery is inside a critical section that found it as `dup`. */
  ghost predicate Section(dup: set<string>, s: State, t: nat) {
    t < |s.deliveries| &&
    var commit := s.deliveries[t].commit;
    match s.deliveries[t].pc
    case Checking => s.dup == dup
    case Rejecting => s.dup == dup && commit in dup
    case Inserting => s.dup == dup && commit !in dup
    case Accepting => s.dup == dup + {commit} && commit !in dup
    case Removing => s.dup == dup
    case Removed => s.dup == Forgotten(dup, commit)
    case _ => false
  }

  lemma SectionStep(dup: set<string>, s: State, step: Step, t: nat)
    requires MutexInv(s) && Enabled(s, step) && Section(dup, s, t)
    requires HoldsMutex(Apply(s, step).deliveries[t])
    ensures Section(dup, Apply(s, step), t)
    ensures Apply(s, step).deliveries[t].commit == s.deliveries[t].commit
  {
    assert t in s.mutex;
    assert step.Advance? && step.t != t ==> step.t !in s.mutex;
  }

  /** The delivery is inside one critical section from state `i` to state `j` of the run. */
  ghost predicate Inside(trace: seq<State>, i: nat, j: nat, t: nat) {
    i <= j < |trace| && forall m :: i <= m <= j ==> t < |trace[m].deliveries| && HoldsMutex(trace[m].deliveries[t])
  }

  lemma RunStep(trace: seq<State>, steps: seq<Step>, m: nat)
    requires Run(trace, steps) && m < |steps|
    ensures Inv(trace[m]) && Enabled(trace[m], steps[m]) && trace[m + 1] == Apply(trace[m], steps[m])
  {
    hide Inv, Apply, Enabled;
    RunKeepsInv(trace, steps);
    assert trace[m + 1] == Apply(trace[m], steps[m]);
  }

  lemma {:induction false} SectionHolds(trace: seq<State>, steps: seq<Step>, i: nat, j: nat, t: nat)
    requires Run(trace, steps) && Inside(trace, i, j, t) && trace[i].deliveries[t].pc in {Checking, Removing}
    ensures Section(trace[i].dup, trace[j], t)
    ensures trace[j].deliveries[t].commit == trace[i].deliveries[t].commit
  {
    if i < j {
      SectionHolds(trace, steps, i, j - 1, t);
      RunStep(trace, steps, j - 1);
      hide Apply, Enabled, Section, MutexInv, SemaphoreInv, DuplicateInv, CoverInv, HandledInv;
      SectionStep(trace[i].dup, trace[j - 1], steps[j - 1], t);
    }
  }

  /** In every interleaving, what a delivery finds and leaves between locking and unlocking the mutex is what
      `Duplicate` returns and leaves in one go. */
  lemma DuplicateIsAtomic(trace: seq<State>, steps: seq<Step>, i: nat, j: nat, t: nat)
    requires Run(trace, steps) && Inside(trace, i, j, t)
    requires trace[i].deliveries[t].pc == Checking && trace[j].deliveries[t].pc in {Rejecting, Accepting}
    ensures var (found, after) := Looked(trace[i].dup, trace[i].deliveries[t].commit);
            found == (trace[j].deliveries[t].pc == Rejecting) && after == trace[j].dup
  {
    hide Run, Apply;
    SectionHolds(trace, steps, i, j, t);
  }

  /** And the same for `Remove`. */
  lemma RemoveIsAtomic(trace: seq<State>, steps: seq<Step>, i: nat, j: nat, t: nat)
    requires Run(trace, steps) && Inside(trace, i, j, t)
    requires trace[i].deliveries[t].pc == Removing && trace[j].deliveries[t].pc == Removed
    ensures trace[j].dup == Forgotten(trace[i].dup, trace[i].deliveries[t].commit)
  {
    hide Run, Apply;
    SectionHolds(trace, steps, i, j, t);
  }
}
