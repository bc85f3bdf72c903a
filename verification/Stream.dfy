/** One client stream: `Send`, `Close` and `Run` (web/stream/stream.go:44-79).

    Any number of `Send` and `Close` calls run concurrently with the single `Run` loop. The channel
    is unbuffered: a send completes only together with a receive by `Run`. `Send` keeps the mutex
    while it waits for that. Every mutex, channel and flag operation is one step. */
module Stream {
  import opened Counting

  datatype PC =
    | Locking        // about to lock the mutex
    | Locked         // holds the mutex, has not looked at the flag
    | Sending        // a `Send` at the channel operation, holding the mutex
    | Sent           // the message was handed over, the mutex is still held
    | ClosingChannel // a `Close` about to close the channel, holding the mutex
    | SettingFlag    // a `Close` about to set the flag, holding the mutex
    | Unlocking      // holds the mutex, nothing left to do
    | Done

  datatype Call<M> = SendCall(msg: M) | CloseCall
  datatype Thread<M> = Thread(call: Call<M>, pc: PC)

  /** `Run`: in its select, handing a message to the client, or left (its deferred `Close` is then
      one of the threads). */
  datatype Runner<M> = Selecting | Handing(msg: M) | Left

  datatype State<M> = State(
    threads: seq<Thread<M>>,
    mutex: set<nat>,
    closed: bool,            // the `closed` flag
    channelClosed: bool,     // whether the channel is closed
    runner: Runner<M>,
    completed: seq<M>,       // history: messages in the order in which their `Send` released the mutex
    received: seq<M>,        // history: messages received by `Run`
    delivered: seq<M>,       // history: messages handed to the client without error
    panicked: bool)          // a send on, or a second close of, the closed channel

  datatype Step<M> =
    | CallSend(msg: M)
    | CallClose
    | Advance(t: nat)
    | Rendezvous(t: nat)     // `s.ch <- data` together with `<-s.ch`
    | ReceiveClosed          // `<-s.ch` on the closed channel
    | ContextDone
    | Hand(ok: bool)         // `s.stream.Send(data)` returns

  function Init<M>(): State<M> { State([], {}, false, false, Selecting, [], [], [], false) }

  predicate Enabled<M>(s: State<M>, step: Step<M>) {
    match step
    case CallSend(_) => true
    case CallClose => true
    case Advance(t) =>
      t < |s.threads| &&
      (match s.threads[t].pc
       case Locking => s.mutex == {}
       case Sending => s.channelClosed
       case Done => false
       case _ => true)
    case Rendezvous(t) =>
      t < |s.threads| && s.threads[t].pc == Sending && s.threads[t].call.SendCall? &&
      !s.channelClosed && s.runner.Selecting?
    case ReceiveClosed => s.runner.Selecting? && s.channelClosed
    case ContextDone => s.runner.Selecting?
    case Hand(_) => s.runner.Handing?
  }

  function Moved<M>(s: State<M>, t: nat, pc: PC): seq<Thread<M>>
    requires t < |s.threads|
  {
    s.threads[t := s.threads[t].(pc := pc)]
  }

  /** `Run` returns, and its deferred `Close` begins. */
  function Leave<M>(s: State<M>): State<M> {
    s.(runner := Left, threads := s.threads + [Thread(CloseCall, Locking)])
  }

  function Apply<M>(s: State<M>, step: Step<M>): State<M>
    requires Enabled(s, step)
  {
    match step
    case CallSend(m) => s.(threads := s.threads + [Thread(SendCall(m), Locking)])
    case CallClose => s.(threads := s.threads + [Thread(CloseCall, Locking)])
    case Advance(t) =>
      (match s.threads[t].pc
       case Locking => s.(threads := Moved(s, t, Locked), mutex := s.mutex + {t})
       case Locked =>
         var next := match s.threads[t].call
           case SendCall(_) => if s.closed then Unlocking else Sending
           case CloseCall => if s.closed then SettingFlag else ClosingChannel;
         s.(threads := Moved(s, t, next))
       case Sending => s.(panicked := true)
       case Sent =>
         s.(threads := Moved(s, t, Done), mutex := s.mutex - {t},
            completed := if s.threads[t].call.SendCall? then s.completed + [s.threads[t].call.msg] else s.completed)
       case ClosingChannel =>
         s.(threads := Moved(s, t, SettingFlag), channelClosed := true, panicked := s.panicked || s.channelClosed)
       case SettingFlag => s.(threads := Moved(s, t, Unlocking), closed := true)
       case Unlocking => s.(threads := Moved(s, t, Done), mutex := s.mutex - {t})
       case Done => s)
    case Rendezvous(t) =>
      var m := s.threads[t].call.msg;
      s.(threads := Moved(s, t, Sent), received := s.received + [m], runner := Handing(m))
    case ReceiveClosed => Leave(s)
    case ContextDone => Leave(s)
    case Hand(ok) =>
      if ok then s.(delivered := s.delivered + [s.runner.msg], runner := Selecting) else Leave(s)
  }

  ghost predicate Run<M>(trace: seq<State<M>>, steps: seq<Step<M>>) {
    && |trace| == |steps| + 1 && trace[0] == Init()
    && forall i :: 0 <= i < |steps| ==> Enabled(trace[i], steps[i]) && trace[i + 1] == Apply(trace[i], steps[i])
  }

  // ---------- the invariant ----------

  predicate HoldsMutex<M>(t: Thread<M>) { t.pc != Locking && t.pc != Done }

  ghost predicate HoldersInv<M>(s: State<M>) {
    forall t :: t in s.mutex <==> 0 <= t < |s.threads| && HoldsMutex(s.threads[t])
  }

  ghost predicate MutexInv<M>(s: State<M>) {
    HoldersInv(s) && forall t, u :: t in s.mutex && u in s.mutex ==> t == u
  }

  /** The flag and the channel agree, except between the two steps of the `Close` that closes it; and
      whoever is about to use the channel finds it open. */
  ghost predicate ChannelInv<M>(s: State<M>) {
    && !s.panicked
    && (s.closed ==> s.channelClosed)
    && (s.channelClosed && !s.closed ==>
          exists t :: 0 <= t < |s.threads| && s.threads[t].pc == SettingFlag)
    && (forall t :: 0 <= t < |s.threads| && s.threads[t].pc in {Sending, Sent} ==>
         s.threads[t].call.SendCall? && !s.channelClosed)
    && (forall t :: 0 <= t < |s.threads| && s.threads[t].pc == ClosingChannel ==> !s.channelClosed)
    && (forall t :: 0 <= t < |s.threads| && s.threads[t].pc == SettingFlag ==> s.channelClosed)
  }

  /** The message a `Send` has handed over while it still holds the mutex. */
  function InFlight<M>(s: State<M>): seq<M> {
    Handed(s.threads)
  }

  function Handed<M>(threads: seq<Thread<M>>): seq<M> {
    if |threads| == 0 then []
    else
      var last := threads[|threads| - 1];
      Handed(threads[..|threads| - 1]) + if last.pc == Sent && last.call.SendCall? then [last.call.msg] else []
  }

  /** What `Run` has received is what completed `Send` calls sent, in the same order, and at most the
      message of the one `Send` that has handed it over but not returned. */
  ghost predicate OrderInv<M>(s: State<M>) {
    && s.received == s.completed + InFlight(s)
    && (match s.runner
        case Selecting => s.received == s.delivered
        case Handing(m) => s.received == s.delivered + [m]
        case Left => s.delivered <= s.received && |s.received| <= |s.delivered| + 1)
  }

  ghost predicate Inv<M>(s: State<M>) { MutexInv(s) && ChannelInv(s) && OrderInv(s) }

  // ---------- every step keeps it ----------

  lemma StepKeepsHolders<M>(s: State<M>, step: Step<M>)
    requires HoldersInv(s) && Enabled(s, step)
    ensures HoldersInv(Apply(s, step))
  {
  }

  lemma StepKeepsMutex<M>(s: State<M>, step: Step<M>)
    requires MutexInv(s) && Enabled(s, step)
    ensures MutexInv(Apply(s, step))
  {
    StepKeepsHolders(s, step);
    hide HoldersInv;
  }

  /** Whoever is between locking and unlocking is alone there. */
  ghost predicate OneHolder<M>(s: State<M>) {
    forall t, u :: 0 <= t < |s.threads| && 0 <= u < |s.threads| && HoldsMutex(s.threads[t]) && HoldsMutex(s.threads[u])
      ==> t == u
  }

  lemma MutexMeansOne<M>(s: State<M>)
    requires MutexInv(s)
    ensures OneHolder(s)
  {
    assert forall t :: 0 <= t < |s.threads| && HoldsMutex(s.threads[t]) ==> t in s.mutex;
  }

  lemma AdvanceKeepsChannel<M>(s: State<M>, t: nat)
    requires OneHolder(s) && ChannelInv(s) && Enabled(s, Advance(t))
    ensures ChannelInv(Apply(s, Advance(t)))
  {
    var s' := Apply(s, Advance(t));
    if s.channelClosed && !s.closed {
      var u :| 0 <= u < |s.threads| && s.threads[u].pc == SettingFlag;
      assert s'.threads[u].pc == SettingFlag || s'.closed;
    }
    if s.threads[t].pc == ClosingChannel {
      assert s'.threads[t].pc == SettingFlag;
    }
  }

  lemma StepKeepsChannel<M>(s: State<M>, step: Step<M>)
    requires MutexInv(s) && ChannelInv(s) && Enabled(s, step)
    ensures ChannelInv(Apply(s, step))
  {
    MutexMeansOne(s);
    hide MutexInv;
    if step.Advance? {
      AdvanceKeepsChannel(s, step.t);
    } else {
      var s' := Apply(s, step);
      if s.channelClosed && !s.closed {
        var u :| 0 <= u < |s.threads| && s.threads[u].pc == SettingFlag;
        assert s'.threads[u].pc == SettingFlag;
      }
    }
  }

  lemma {:induction false} HandedNothing<M>(threads: seq<Thread<M>>)
    requires forall t :: 0 <= t < |threads| ==> threads[t].pc != Sent
    ensures Handed(threads) == []
  {
    if |threads| > 0 {
      HandedNothing(threads[..|threads| - 1]);
    }
  }

  lemma {:induction false} HandedOne<M>(threads: seq<Thread<M>>, t: nat)
    requires t < |threads| && threads[t].pc == Sent && threads[t].call.SendCall?
    requires forall u :: 0 <= u < |threads| && threads[u].pc == Sent ==> u == t
    ensures Handed(threads) == [threads[t].call.msg]
  {
    var front := threads[..|threads| - 1];
    if t < |front| {
      HandedOne(front, t);
    } else {
      HandedNothing(front);
    }
  }

  /** What is in flight depends only on who is at `Sent`. */
  lemma {:induction false} HandedSame<M>(a: seq<Thread<M>>, b: seq<Thread<M>>)
    requires |a| == |b|
    requires forall t :: 0 <= t < |a| ==> a[t].call == b[t].call && (a[t].pc == Sent <==> b[t].pc == Sent)
    ensures Handed(a) == Handed(b)
  {
    if |a| > 0 {
      HandedSame(a[..|a| - 1], b[..|b| - 1]);
    }
  }

  lemma HandedSnoc<M>(threads: seq<Thread<M>>, t: Thread<M>)
    requires t.pc != Sent
    ensures Handed(threads + [t]) == Handed(threads)
  {
    assert (threads + [t])[..|threads|] == threads;
  }

  /** At most one thread holds the mutex, so when `t` holds it no other thread is at `Sent`. */
  lemma OnlyHolder<M>(s: State<M>, t: nat)
    requires MutexInv(s) && t < |s.threads| && HoldsMutex(s.threads[t])
    ensures forall u :: 0 <= u < |s.threads| && u != t ==> s.threads[u].pc != Sent
  {
    assert t in s.mutex;
    assert forall u :: 0 <= u < |s.threads| && HoldsMutex(s.threads[u]) ==> u in s.mutex;
  }

  lemma StepKeepsOrder<M>(s: State<M>, step: Step<M>)
    requires Inv(s) && Enabled(s, step)
    ensures OrderInv(Apply(s, step))
  {
    var s' := Apply(s, step);
    match step
    case CallSend(m) => HandedSnoc(s.threads, Thread(SendCall(m), Locking));
    case CallClose => HandedSnoc(s.threads, Thread(CloseCall, Locking));
    case ReceiveClosed => HandedSnoc(s.threads, Thread(CloseCall, Locking));
    case ContextDone => HandedSnoc(s.threads, Thread(CloseCall, Locking));
    case Hand(ok) => HandedSnoc(s.threads, Thread(CloseCall, Locking));
    case Rendezvous(t) =>
      OnlyHolder(s, t);
      HandedNothing(s.threads);
      HandedOne(s'.threads, t);
    case Advance(t) =>
      if s.threads[t].pc == Sent {
        OnlyHolder(s, t);
        HandedOne(s.threads, t);
        HandedNothing(s'.threads);
      } else {
        HandedSame(s.threads, s'.threads);
      }
  }

  lemma StepKeepsInv<M>(s: State<M>, step: Step<M>)
    requires Inv(s) && Enabled(s, step)
    ensures Inv(Apply(s, step))
  {
    hide Apply, MutexInv, ChannelInv, OrderInv;
    StepKeepsMutex(s, step);
    StepKeepsChannel(s, step);
    StepKeepsOrder(s, step);
  }

  /** In every interleaving of any number of calls. */
  lemma {:induction false} RunKeepsInv<M>(trace: seq<State<M>>, steps: seq<Step<M>>)
    requires Run(trace, steps)
    ensures forall i :: 0 <= i < |trace| ==> Inv(trace[i])
  {
    if |steps| == 0 {
      assert Inv(trace[0]);
    } else {
      var n := |steps| - 1;
      RunKeepsInv(trace[..n + 1], steps[..n]);
      var s := trace[n];
      assert s == trace[..n + 1][n];
      hide Apply, Inv;
      StepKeepsInv(s, steps[n]);
    }
  }

  // ---------- what it means ----------

  /** Nothing is sent on a closed channel and the channel is closed at most once; what the client got
      is what completed `Send` calls sent, in order and without repeats, up to the last messages. */
  lemma Safety<M>(trace: seq<State<M>>, steps: seq<Step<M>>, s: State<M>)
    requires Run(trace, steps) && s in trace
    ensures !s.panicked
    ensures forall t :: 0 <= t < |s.threads| && s.threads[t].pc in {Sending, ClosingChannel} ==> !s.channelClosed
    ensures s.completed <= s.received && |s.received| <= |s.completed| + 1
    ensures s.mutex == {} ==> s.received == s.completed
    ensures s.delivered <= s.received && |s.received| <= |s.delivered| + 1
    ensures s.runner.Selecting? ==> s.delivered == s.received
  {
    RunKeepsInv(trace, steps);
    assert Inv(s);
    if sender: nat :| sender < |s.threads| && s.threads[sender].pc == Sent {
      OnlyHolder(s, sender);
      HandedOne(s.threads, sender);
      assert sender in s.mutex;
    } else {
      HandedNothing(s.threads);
    }
  }

  /** Once the channel is closed, nothing more is ever received. */
  lemma {:induction false} ClosedStaysSilent<M>(trace: seq<State<M>>, steps: seq<Step<M>>, i: nat, j: nat)
    requires Run(trace, steps) && i <= j < |trace| && trace[i].channelClosed
    ensures trace[j].channelClosed && trace[j].received == trace[i].received
  {
    if i < j {
      ClosedStaysSilent(trace, steps, i, j - 1);
      assert trace[j] == Apply(trace[j - 1], steps[j - 1]);
    }
  }

  // ---------- what a call achieves ----------

  /** Where the `Send` of `m` in thread `t` stands after it found the stream open, with `n` sends completed before. */
  ghost predicate OnItsWay<M>(s: State<M>, t: nat, m: M, n: nat) {
    && t < |s.threads| && s.threads[t].call == SendCall(m)
    && match s.threads[t].pc
       case Locked => !s.closed && |s.completed| == n
       case Sending => |s.completed| == n
       case Sent => |s.completed| == n
       case Done => n < |s.completed| && s.completed[n] == m
       case _ => false
  }

  lemma StepKeepsOnItsWay<M>(s: State<M>, step: Step<M>, t: nat, m: M, n: nat)
    requires Inv(s) && Enabled(s, step) && OnItsWay(s, t, m, n)
    ensures OnItsWay(Apply(s, step), t, m, n)
  {
    assert HoldsMutex(s.threads[t]) ==> t in s.mutex;
    assert step.Advance? && HoldsMutex(s.threads[step.t]) ==> step.t in s.mutex;
    assert step.Rendezvous? ==> step.t in s.mutex;
  }

  lemma RunStep<M>(trace: seq<State<M>>, steps: seq<Step<M>>, i: nat)
    requires Run(trace, steps) && i + 1 < |trace|
    ensures i < |steps| && Inv(trace[i]) && Inv(trace[i + 1])
    ensures Enabled(trace[i], steps[i]) && trace[i + 1] == Apply(trace[i], steps[i])
  {
    RunKeepsInv(trace, steps);
    hide Inv, Enabled, Apply;
    assert trace[i + 1] == Apply(trace[i], steps[i]);
  }

  lemma {:induction false} StaysOnItsWay<M>(trace: seq<State<M>>, steps: seq<Step<M>>, i: nat, j: nat, t: nat, m: M,
                                            n: nat)
    requires Run(trace, steps) && i <= j < |trace| && OnItsWay(trace[i], t, m, n)
    ensures OnItsWay(trace[j], t, m, n)
  {
    hide *;
    if i < j {
      StaysOnItsWay(trace, steps, i, j - 1, t, m, n);
      RunStep(trace, steps, j - 1);
      StepKeepsOnItsWay(trace[j - 1], steps[j - 1], t, m, n);
    }
  }

  /** A `Send` that finds the stream open hands its message over: when it returns, `Run` has received the message,
      right after those of the calls completed before. */
  lemma SendDelivers<M>(trace: seq<State<M>>, steps: seq<Step<M>>, i: nat, j: nat, t: nat, m: M)
    requires Run(trace, steps) && i < j < |trace| && t < |trace[i].threads| && t < |trace[j].threads|
    requires trace[i].threads[t] == Thread(SendCall(m), Locked) && !trace[i].closed
    requires trace[j].threads[t].pc == Done
    ensures var n := |trace[i].completed|;
            n < |trace[j].completed| <= |trace[j].received| && trace[j].completed[n] == trace[j].received[n] == m
  {
    StaysOnItsWay(trace, steps, i, j, t, m, |trace[i].completed|);
    hide Run;
    Safety(trace, steps, trace[j]);
  }

  /** Nobody is handing over a message to a closed stream. */
  lemma ClosedIsIdle<M>(s: State<M>)
    requires Inv(s) && s.channelClosed
    ensures s.received == s.completed
  {
    HandedNothing(s.threads);
  }

  /** A `Send` that finds the flag set adds nothing, and nothing is added ever after. */
  lemma SendAfterCloseAddsNothing<M>(trace: seq<State<M>>, steps: seq<Step<M>>, i: nat, j: nat)
    requires Run(trace, steps) && i <= j < |trace| && trace[i].closed
    ensures trace[j].completed == trace[i].completed && trace[j].received == trace[i].received
  {
    RunKeepsInv(trace, steps);
    assert Inv(trace[i]) && Inv(trace[j]);
    ClosedStaysSilent(trace, steps, i, j);
    hide Run;
    ClosedIsIdle(trace[i]);
    ClosedIsIdle(trace[j]);
  }

  /** A `Close` that has set the flag leaves it set, and when `Run` has left there is a `Close`. */
  ghost predicate CloseInv<M>(s: State<M>) {
    && (forall t :: 0 <= t < |s.threads| && s.threads[t].call.CloseCall? && s.threads[t].pc in {Unlocking, Done} ==>
          s.closed)
    && (s.runner.Left? ==> exists t :: 0 <= t < |s.threads| && s.threads[t].call.CloseCall?)
  }

  lemma StepKeepsClose<M>(s: State<M>, step: Step<M>)
    requires Inv(s) && CloseInv(s) && Enabled(s, step)
    ensures CloseInv(Apply(s, step))
  {
    hide MutexInv, OrderInv;
    var s' := Apply(s, step);
    if s.runner.Left? {
      var t :| 0 <= t < |s.threads| && s.threads[t].call.CloseCall?;
      assert s'.threads[t].call.CloseCall?;
    } else if s'.runner.Left? {
      assert s'.threads[|s.threads|].call.CloseCall?;
    }
  }

  lemma NoCloseYet<M>(trace: seq<State<M>>, steps: seq<Step<M>>)
    requires Run(trace, steps)
    ensures CloseInv(trace[0])
  {
    hide Apply, Enabled;
  }

  lemma {:induction false} RunKeepsClose<M>(trace: seq<State<M>>, steps: seq<Step<M>>, i: nat)
    requires Run(trace, steps) && i < |trace|
    ensures CloseInv(trace[i])
  {
    hide *;
    if i == 0 {
      NoCloseYet(trace, steps);
    } else {
      RunKeepsClose(trace, steps, i - 1);
      RunStep(trace, steps, i - 1);
      StepKeepsClose(trace[i - 1], steps[i - 1]);
    }
  }

  /** When a `Close` has returned, the stream is closed, and stays so. */
  lemma CloseCloses<M>(trace: seq<State<M>>, steps: seq<Step<M>>, i: nat, t: nat)
    requires Run(trace, steps) && i < |trace| && t < |trace[i].threads|
    requires trace[i].threads[t] == Thread(CloseCall, Done)
    ensures trace[i].closed && trace[i].channelClosed
  {
    RunKeepsClose(trace, steps, i);
    RunKeepsInv(trace, steps);
    assert Inv(trace[i]);
  }

  /** When `Run` has left and all calls have returned, the stream is closed. */
  lemma RunClosesBehindIt<M>(trace: seq<State<M>>, steps: seq<Step<M>>, i: nat)
    requires Run(trace, steps) && i < |trace| && trace[i].runner.Left?
    requires forall t :: 0 <= t < |trace[i].threads| ==> trace[i].threads[t].pc == Done
    ensures trace[i].closed && trace[i].channelClosed
  {
    RunKeepsClose(trace, steps, i);
    var t :| 0 <= t < |trace[i].threads| && trace[i].threads[t].call.CloseCall?;
    CloseCloses(trace, steps, i, t);
  }

  lemma StepGoesOn<M>(s: State<M>, step: Step<M>)
    requires OrderInv(s) && Enabled(s, step) && !s.runner.Left?
    ensures Apply(s, step).runner.Left? <==> step in {ContextDone, ReceiveClosed, Hand(false)}
    ensures step.ReceiveClosed? ==> s.channelClosed
    ensures step == Hand(true) ==> Apply(s, step).delivered == Apply(s, step).received == s.received
    ensures step == Hand(false) ==> Apply(s, step).delivered + [s.runner.msg] == Apply(s, step).received
  {
    hide InFlight;
  }

  /** A message that is handed over without error is delivered, and `Run` goes on; otherwise it is not, and `Run`
      leaves. Apart from that it leaves only when the channel is closed or the context is cancelled. */
  lemma RunGoesOnExactlyWhen<M>(trace: seq<State<M>>, steps: seq<Step<M>>, i: nat)
    requires Run(trace, steps) && i < |steps| && !trace[i].runner.Left?
    ensures trace[i + 1].runner.Left? <==> steps[i] in {ContextDone, ReceiveClosed, Hand(false)}
    ensures steps[i].ReceiveClosed? ==> trace[i].channelClosed
    ensures steps[i] == Hand(true) ==> trace[i + 1].delivered == trace[i + 1].received == trace[i].received
    ensures steps[i] == Hand(false) ==> trace[i + 1].delivered + [trace[i].runner.msg] == trace[i + 1].received
  {
    RunStep(trace, steps, i);
    hide Run, MutexInv, ChannelInv, OrderInv, Apply, Enabled;
    StepGoesOn(trace[i], steps[i]);
  }

  // ---------- when calls hang ----------

  /** Steps that need no new call and no cancelled context. */
  predicate Internal<M>(step: Step<M>) { !step.CallSend? && !step.CallClose? && !step.ContextDone? }

  ghost predicate Halted<M(!new)>(s: State<M>) { forall step :: Internal(step) ==> !Enabled(s, step) }

  /** A `Send` waits at the channel, and `Run` has left its loop. */
  ghost predicate Abandoned<M>(s: State<M>, t: nat) {
    t < |s.threads| && s.threads[t].pc == Sending && s.runner.Left?
  }

  lemma AbandonedHalts<M(!new)>(s: State<M>, t: nat)
    requires Inv(s) && Abandoned(s, t)
    ensures Halted(s)
  {
    assert t in s.mutex;
    forall step: Step<M> | Internal(step) ensures !Enabled(s, step) {
      assert step.Advance? && step.t < |s.threads| && HoldsMutex(s.threads[step.t]) ==> step.t in s.mutex;
    }
  }

  lemma PendingAdvances<M>(s: State<M>, t: nat) returns (step: Step<M>)
    requires Inv(s) && t < |s.threads| && s.threads[t].pc != Done
    requires forall u: nat :: !Abandoned(s, u)
    ensures Internal(step) && Enabled(s, step)
  {
    if s.mutex == {} {
      step := Advance(t);
      assert !HoldsMutex(s.threads[t]);
    } else {
      var u :| u in s.mutex;
      assert !Abandoned(s, u);
      if s.threads[u].pc == Sending {
        step := if s.runner.Selecting? then Rendezvous(u) else Hand(true);
      } else {
        step := Advance(u);
      }
    }
  }

  /** All calls have returned, and `Run` waits for the next message or has left. */
  ghost predicate Idle<M>(s: State<M>) {
    && (forall t :: 0 <= t < |s.threads| ==> s.threads[t].pc == Done)
    && (s.runner.Left? || (s.runner.Selecting? && !s.channelClosed))
  }

  lemma IdleHalts<M(!new)>(s: State<M>)
    requires Idle(s)
    ensures Halted(s)
  {
  }

  lemma BusyGoesOn<M>(s: State<M>) returns (step: Step<M>)
    requires Inv(s) && !Idle(s) && forall u: nat :: !Abandoned(s, u)
    ensures Internal(step) && Enabled(s, step)
  {
    if t :| 0 <= t < |s.threads| && s.threads[t].pc != Done {
      step := PendingAdvances(s, t);
    } else {
      step := if s.runner.Handing? then Hand(true) else ReceiveClosed;
    }
  }

  /** Nothing can go on without a new call or a cancelled context exactly if there is nothing to do, or a `Send` waits
      at the channel and `Run` has left its loop. */
  lemma HaltsExactlyWhen<M(!new)>(trace: seq<State<M>>, steps: seq<Step<M>>, i: nat)
    requires Run(trace, steps) && i < |trace|
    ensures Halted(trace[i]) <==> Idle(trace[i]) || exists u: nat :: Abandoned(trace[i], u)
  {
    RunKeepsInv(trace, steps);
    var s := trace[i];
    assert Inv(s);
    hide Inv, Enabled, Run, Idle;
    if u: nat :| Abandoned(s, u) {
      AbandonedHalts(s, u);
    } else if Idle(s) {
      IdleHalts(s);
    } else {
      var step := BusyGoesOn(s);
    }
  }

  /** How far a call has come; waiting at the channel and having got rid of the message are two apart. */
  function Rank<M>(t: Thread<M>): nat {
    match t.pc
    case Locking => 0
    case Locked => 1
    case Sending => 2
    case ClosingChannel => 2
    case SettingFlag => 3
    case Sent => 4
    case Unlocking => 4
    case Done => 5
  }

  function Progress<M>(s: State<M>): int {
    |s.threads| + Total(Rank, s.threads) - if s.runner.Handing? then 1 else 0
  }

  lemma AdvanceProgresses<M>(s: State<M>, t: nat)
    requires ChannelInv(s) && Enabled(s, Advance(t))
    ensures var s' := Apply(s, Advance(t));
            && |s'.threads| == |s.threads| && s'.runner == s.runner && Rank(s'.threads[t]) > Rank(s.threads[t])
            && s'.threads == s.threads[t := s'.threads[t]]
  {
  }

  lemma StepProgresses<M>(s: State<M>, step: Step<M>)
    requires ChannelInv(s) && Enabled(s, step)
    ensures Progress(Apply(s, step)) > Progress(s)
  {
    var s' := Apply(s, step);
    match step
    case CallSend(m) => TotalSnoc(Rank, s.threads, Thread(SendCall(m), Locking));
    case Advance(t) =>
      AdvanceProgresses(s, t);
      hide Apply, ChannelInv, Rank;
      TotalUpdate(Rank, s.threads, t, s'.threads[t]);
    case Rendezvous(t) => TotalUpdate(Rank, s.threads, t, s'.threads[t]);
    case _ => TotalSnoc(Rank, s.threads, Thread(CloseCall, Locking));
  }

  lemma {:induction false} RunProgresses<M>(trace: seq<State<M>>, steps: seq<Step<M>>, i: nat)
    requires Run(trace, steps) && i < |trace|
    ensures i <= Progress(trace[i])
  {
    if i == 0 {
      assert trace[0] == Init();
    } else {
      hide Apply, Enabled, MutexInv, ChannelInv, OrderInv, Progress;
      RunProgresses(trace, steps, i - 1);
      RunStep(trace, steps, i - 1);
      StepProgresses(trace[i - 1], steps[i - 1]);
    }
  }

  /** A run has at most six steps for each call, the `Close` of `Run` included: without new calls it ends, and by
      HaltsExactlyWhen all calls have returned then unless a `Send` has been abandoned. */
  lemma RunsEnd<M(!new)>(trace: seq<State<M>>, steps: seq<Step<M>>, t: nat)
    requires Run(trace, steps)
    ensures |steps| <= 6 * |trace[|steps|].threads|
    ensures Halted(trace[|steps|]) && t < |trace[|steps|].threads| ==>
              trace[|steps|].threads[t].pc == Done || exists u: nat :: Abandoned(trace[|steps|], u)
  {
    RunProgresses(trace, steps, |steps|);
    TotalBound(Rank, trace[|steps|].threads, 5);
    hide Run, Halted, Abandoned;
    HaltsExactlyWhen(trace, steps, |steps|);
  }

  /** `u` is a pending call, or not yet a call. */
  ghost predicate Pending<M>(s: State<M>, u: nat) { u < |s.threads| ==> s.threads[u].pc != Done }

  lemma StaysAbandoned<M(!new)>(s: State<M>, step: Step<M>, t: nat, u: nat)
    requires Inv(s) && Enabled(s, step) && Abandoned(s, t) && Pending(s, u)
    ensures Abandoned(Apply(s, step), t) && Pending(Apply(s, step), u)
  {
    AbandonedHalts(s, t);
    assert !Internal(step);
  }

  /** It never goes on then: that `Send` never returns, and no other call pending or to come does. */
  lemma {:induction false} AbandonedForever<M(!new)>(trace: seq<State<M>>, steps: seq<Step<M>>, i: nat, j: nat, t: nat,
                                                     u: nat)
    requires Run(trace, steps) && i <= j < |trace| && Abandoned(trace[i], t) && Pending(trace[i], u)
    ensures Abandoned(trace[j], t) && Pending(trace[j], u)
  {
    hide *;
    if i < j {
      AbandonedForever(trace, steps, i, j - 1, t, u);
      RunStep(trace, steps, j - 1);
      StaysAbandoned(trace[j - 1], steps[j - 1], t, u);
    }
  }

  /** It can happen: the context is cancelled while a `Send` waits at the channel; the `Close` that `Run` defers then
      waits for the mutex for good. */
  lemma CancelDuringSend<M>(m: M) returns (trace: seq<State<M>>, steps: seq<Step<M>>)
    ensures Run(trace, steps) && Abandoned(trace[|steps|], 0)
    ensures |trace[|steps|].threads| == 2 && trace[|steps|].threads[1] == Thread(CloseCall, Locking)
  {
    steps := [CallSend(m), Advance(0), Advance(0), ContextDone];
    var s0: State<M> := Init();
    var s1 := Apply(s0, steps[0]);
    var s2 := Apply(s1, steps[1]);
    var s3 := Apply(s2, steps[2]);
    trace := [s0, s1, s2, s3, Apply(s3, steps[3])];
  }
}
