/** The gateway lifecycle: interleaved atomic steps of any number of threads. */
module Gateway {
  import opened Wrappers

  datatype Phase = Running | Suspending | Suspended | Stopping

  /** What the lifecycle lock protects. */
  datatype Status = Status(phase: Phase, active: int)

  function SuspendStatus(status: Status): Status {
    if status.phase == Running then status.(phase := if status.active == 0 then Suspended else Suspending) else status
  }

  function ResumeStatus(status: Status): Status {
    if status.phase != Stopping then status.(phase := Running) else status
  }

  function StopStatus(status: Status): Status {
    status.(phase := Stopping)
  }

  function LeaveStatus(status: Status): Status {
    var active := status.active - 1;
    Status(if status.phase == Suspending && active == 0 then Suspended else status.phase, active)
  }

  /** What the lifecycle lock keeps true: Suspended means nothing is active, Suspending that something is. */
  predicate StatusOk(status: Status) {
    && status.active >= 0
    && (status.phase == Suspended ==> status.active == 0)
    && (status.phase == Suspending ==> status.active >= 1)
  }

  /** The status record as the methods update it, each with the lock held. */
  class Lifecycle {
    var phase: Phase
    var active: int

    function View(): Status
      reads this
    {
      Status(phase, active)
    }

    constructor ()
      ensures View() == Status(Running, 0)
    {
      phase, active := Running, 0;
    }

    method Suspend()
      modifies this
      ensures View() == SuspendStatus(old(View()))
      ensures phase != Running && active == old(active) && (old(StatusOk(View())) ==> StatusOk(View()))
    {
      if phase == Running {
        if active == 0 {
          phase := Suspended;
        } else {
          phase := Suspending;
        }
      }
    }

    method Resume() returns (notify: bool)
      modifies this
      ensures View() == ResumeStatus(old(View())) && notify == (old(phase) != Stopping)
      ensures (phase == Running <==> notify) && active == old(active) && (old(StatusOk(View())) ==> StatusOk(View()))
    {
      notify := phase != Stopping;
      if notify {
        phase := Running;
      }
    }

    method Stop()
      modifies this
      ensures View() == StopStatus(old(View()))
      ensures old(StatusOk(View())) ==> StatusOk(View())
    {
      phase := Stopping;
    }

    method Enter()
      modifies this
      ensures View() == old(View()).(active := old(active) + 1)
    {
      active := active + 1;
    }

    method Leave()
      modifies this
      ensures View() == LeaveStatus(old(View()))
      ensures old(StatusOk(View())) && old(active) > 0 ==> StatusOk(View())
    {
      active := active - 1;
      if phase == Suspending && active == 0 {
        phase := Suspended;
      }
    }
  }

  function LeaveTimes(status: Status, n: nat): Status {
    if n == 0 then status else LeaveStatus(LeaveTimes(status, n - 1))
  }

  /** A suspension lasts exactly as long as the executions it found: it completes with the last of them. */
  lemma {:induction false} SuspensionCompletes(active: nat, left: nat)
    requires left <= active
    ensures LeaveTimes(SuspendStatus(Status(Running, active)), left)
         == Status(if left == active then Suspended else Suspending, active - left)
  {
    if left > 0 {
      SuspensionCompletes(active, left - 1);
    }
  }

  /** Resuming undoes a suspension at any point of it; executions that left meanwhile stay gone. */
  lemma ResumeUndoesSuspend(active: nat, left: nat)
    requires left <= active
    ensures ResumeStatus(LeaveTimes(SuspendStatus(Status(Running, active)), left)) == Status(Running, active - left)
  {
    SuspensionCompletes(active, left);
  }

  /** Once stopped, neither suspending, resuming nor a leaving execution changes the phase. */
  lemma {:induction false} StopIsFinal(status: Status, left: nat)
    ensures var stopped := LeaveTimes(StopStatus(status), left);
            && stopped == Status(Stopping, status.active - left)
            && SuspendStatus(stopped) == stopped && ResumeStatus(stopped) == stopped
  {
    if left > 0 {
      StopIsFinal(status, left - 1);
    }
  }

  // ---- The system ----

  /** A thread runs a job, serves a connection, or is the accept loop waiting before it spawns one. */
  datatype Role = Job | Connection | Acceptor

  /** Where a thread stands. From `FirstLoad` to `LastLoad`, `Blocked` and `Woken` apart, it holds the lock. */
  datatype Point =
    | Start       // nothing done yet
    | Registered  // connection: in the registry, about to load `accepting`
    | WantLock    // about to take the lifecycle lock
    | FirstLoad   // lock held: loads `accepting`
    | PhaseTest   // lock held: tests the phase
    | LoopLoad    // lock held, suspended: loads `accepting` before waiting
    | Blocked     // waiting in the condition variable, lock released
    | Woken       // notified, about to take the lock again
    | LastLoad    // lock held, running: loads `accepting` once more
    | Serving     // connection: past its checks
    | Live        // job: the execution is live
    | Refused     // turned away
    | Finished

  datatype Thread = Thread(role: Role, at: Point)

  type Tid = nat

  datatype System = System(
    status: Status,
    accepting: bool,
    lock: Option<Tid>,
    threads: map<Tid, Thread>,
    registry: set<Tid>,     // connections pushed and not yet filtered out
    cancelled: set<Tid>,    // connections whose flag is set
    dropStage: nat,         // how far `Runtime::drop` is: 1 stopped, 2 not accepting, 3 swept
    swept: bool             // a sweep has completed since the phase last was Running
  )

  datatype Step =
    | Spawn(tid: Tid, role: Role)
    | Advance(tid: Tid)     // the thread's next step on its own
    | Spurious(tid: Tid)    // a wake-up without notification
    | Suspend
    | Resume
    | Stop
    | Sweep
    | DropStop
    | DropRefuse
    | DropSweep

  function Initial(): System {
    System(Status(Running, 0), true, None, map[], {}, {}, 0, false)
  }

  predicate HoldsLock(at: Point) {
    at.FirstLoad? || at.PhaseTest? || at.LoopLoad? || at.LastLoad?
  }

  function Move(s: System, t: Tid, at: Point): System
    requires t in s.threads
  {
    s.(threads := s.threads[t := s.threads[t].(at := at)])
  }

  /** Moves on and gives the lock back. */
  function Release(s: System, t: Tid, at: Point): System
    requires t in s.threads
  {
    Move(s, t, at).(lock := None)
  }

  /** `notify_all`: every blocked thread becomes runnable. */
  function NotifyAll(s: System): System {
    s.(threads := map t | t in s.threads ::
      if s.threads[t].at.Blocked? then s.threads[t].(at := Woken) else s.threads[t])
  }

  function CancelAll(s: System): System {
    s.(cancelled := s.cancelled + s.registry, swept := s.swept || s.status.phase != Running)
  }

  function SetStatus(s: System, status: Status): System {
    s.(status := status, swept := s.swept && status.phase != Running)
  }

  predicate Enabled(s: System, step: Step) {
    match step
    case Spawn(t, _) => t !in s.threads
    case Advance(t) =>
      t in s.threads
      && match s.threads[t].at {
           case WantLock | Woken | Live => s.lock.None?
           case Blocked | Finished => false
           case _ => true
         }
    case Spurious(t) => t in s.threads && s.threads[t].at.Blocked?
    case Suspend | Resume | Stop => s.lock.None?
    case Sweep => true
    case DropStop => s.lock.None? && s.dropStage == 0
    case DropRefuse => s.dropStage == 1
    case DropSweep => s.dropStage == 2
  }

  /** One step of one thread, following the code of `serve_connection`, `enter` and `wait_for_running`. */
  function AdvanceThread(s: System, t: Tid): System
    requires Enabled(s, Advance(t))
  {
    var thread := s.threads[t];
    match thread.at
    case Start =>
      if thread.role.Connection? then Move(s, t, Registered).(registry := s.registry + {t})
      else Move(s, t, WantLock)
    case Registered => Move(s, t, if s.accepting then WantLock else Refused)
    case WantLock => Move(s, t, FirstLoad).(lock := Some(t))
    case Woken => Move(s, t, PhaseTest).(lock := Some(t))
    case FirstLoad => if s.accepting then Move(s, t, PhaseTest) else Release(s, t, Refused)
    case PhaseTest =>
      if s.status.phase == Running then Move(s, t, LastLoad)
      else if s.status.phase == Stopping then Release(s, t, Refused)
      else Move(s, t, LoopLoad)
    case LoopLoad => Release(s, t, if s.accepting then Blocked else Refused)
    case LastLoad =>
      if !s.accepting then Release(s, t, Refused)
      else
        match thread.role {
          case Job => Release(s, t, Live).(status := s.status.(active := s.status.active + 1))
          case Connection => Release(s, t, Serving)
          case Acceptor => Release(s, t, Finished)
        }
    case Live => NotifyAll(SetStatus(Move(s, t, Finished), LeaveStatus(s.status)))
    case Serving | Refused => Move(s, t, Finished).(registry := s.registry - {t})
    case Blocked | Finished => s
  }

  function Apply(s: System, step: Step): System
    requires Enabled(s, step)
  {
    match step
    case Spawn(t, role) => s.(threads := s.threads[t := Thread(role, Start)])
    case Advance(t) => AdvanceThread(s, t)
    case Spurious(t) => Move(s, t, Woken)
    case Suspend => NotifyAll(SetStatus(s, SuspendStatus(s.status)))
    case Resume =>
      if s.status.phase != Stopping then NotifyAll(SetStatus(s, ResumeStatus(s.status))) else s
    case Stop => NotifyAll(SetStatus(s, StopStatus(s.status)))
    case Sweep => CancelAll(s)
    case DropStop => NotifyAll(SetStatus(s, StopStatus(s.status))).(dropStage := 1)
    case DropRefuse => s.(accepting := false, dropStage := 2)
    case DropSweep => CancelAll(s).(dropStage := 3)
  }

  // ---- The invariant ----

  function LiveThreads(s: System): set<Tid> {
    set t | t in s.threads && s.threads[t].at.Live?
  }

  predicate Waits(phase: Phase) {
    phase == Suspending || phase == Suspended
  }

  /** What is true of one thread. */
  ghost predicate ThreadOk(s: System, t: Tid)
    requires t in s.threads
  {
    var thread := s.threads[t];
    && (s.lock == Some(t) <==> HoldsLock(thread.at))
    && (thread.at.LastLoad? ==> s.status.phase == Running)
    && (thread.at.LoopLoad? || thread.at.Blocked? ==> Waits(s.status.phase))
    && (thread.at.Live? ==> thread.role.Job?)
    && (thread.at.Serving? || thread.at.Registered? ==> thread.role.Connection?)
    && (t in s.registry <==> thread.role.Connection? && !thread.at.Start? && !thread.at.Finished?)
    && (s.swept && thread.at.Serving? ==> t in s.cancelled)
    && (s.dropStage >= 3 && t in s.registry && !thread.at.Registered? && !thread.at.Refused? ==> t in s.cancelled)
  }

  /** What is true of the state the threads share. */
  ghost predicate SharedOk(s: System) {
    && (s.lock.Some? ==> s.lock.value in s.threads)
    && s.registry <= s.threads.Keys
    && s.status.active == |LiveThreads(s)|
    && StatusOk(s.status)
    && (s.swept ==> s.status.phase != Running)
    && s.dropStage <= 3
    && (s.dropStage >= 1 ==> s.status.phase == Stopping)
    && (s.dropStage >= 2 ==> !s.accepting)
  }

  ghost predicate Inv(s: System) {
    (forall t :: t in s.threads ==> ThreadOk(s, t)) && SharedOk(s)
  }

  /** The other threads: at most woken up, and never given or robbed of the lock. */
  lemma AdvanceOthers(s: System, t: Tid, u: Tid)
    requires Inv(s) && Enabled(s, Advance(t)) && u in s.threads && u != t
    ensures var next := AdvanceThread(s, t);
            && u in next.threads && next.threads[u].role == s.threads[u].role
            && (next.threads[u].at == s.threads[u].at || (s.threads[u].at.Blocked? && next.threads[u].at.Woken?))
            && (s.threads[u].at.Blocked? && next.status.phase != s.status.phase ==> next.status.phase == Suspended)
  {
    assert ThreadOk(s, u);
  }

  /** What the threads share stays as it was for the others. */
  lemma AdvanceSharedWith(s: System, t: Tid, u: Tid)
    requires Inv(s) && Enabled(s, Advance(t)) && u in s.threads && u != t
    ensures var next := AdvanceThread(s, t);
            && (next.lock == Some(u) <==> s.lock == Some(u))
            && (u in next.registry <==> u in s.registry)
            && next.cancelled == s.cancelled && next.dropStage == s.dropStage && next.accepting == s.accepting
  {
    assert ThreadOk(s, t) && ThreadOk(s, u);
  }

  /** When only one thread's liveness may have changed, the live set changes by at most that thread. */
  lemma LiveChange(s: System, next: System, t: Tid)
    requires t in s.threads && t in next.threads && next.threads.Keys == s.threads.Keys
    requires forall u :: u in s.threads && u != t ==> (next.threads[u].at.Live? <==> s.threads[u].at.Live?)
    ensures LiveThreads(next) == if next.threads[t].at.Live? then LiveThreads(s) + {t} else LiveThreads(s) - {t}
  {
  }

  lemma LiveAfterMove(s: System, t: Tid, at: Point)
    requires t in s.threads
    ensures LiveThreads(Move(s, t, at)) == if at.Live? then LiveThreads(s) + {t} else LiveThreads(s) - {t}
  {
    LiveChange(s, Move(s, t, at), t);
  }

  lemma AdvanceKeys(s: System, t: Tid)
    requires Enabled(s, Advance(t))
    ensures AdvanceThread(s, t).threads.Keys == s.threads.Keys
  {
  }

  lemma AdvanceLive(s: System, t: Tid)
    requires Inv(s) && Enabled(s, Advance(t))
    ensures t in AdvanceThread(s, t).threads
    ensures LiveThreads(AdvanceThread(s, t))
            == if AdvanceThread(s, t).threads[t].at.Live? then LiveThreads(s) + {t} else LiveThreads(s) - {t}
  {
    var next := AdvanceThread(s, t);
    AdvanceKeys(s, t);
    forall u | u in s.threads && u != t
      ensures next.threads[u].at.Live? <==> s.threads[u].at.Live?
    {
      AdvanceOthers(s, t, u);
    }
    LiveChange(s, next, t);
  }

  lemma SetSizes(tids: set<Tid>, t: Tid)
    ensures t in tids ==> |tids - {t}| == |tids| - 1 && tids + {t} == tids
    ensures t !in tids ==> |tids + {t}| == |tids| + 1 && tids - {t} == tids
  {
  }

  /** The count moves with the thread's liveness. */
  lemma ActiveChange(s: System, t: Tid)
    requires Inv(s) && Enabled(s, Advance(t)) && (s.threads[t].at.Live? ==> s.status.active >= 1)
    ensures t in AdvanceThread(s, t).threads
    ensures var next := AdvanceThread(s, t);
            next.status.active
            == s.status.active + (if next.threads[t].at.Live? then 1 else 0) - (if s.threads[t].at.Live? then 1 else 0)
  {
    AdvanceKeys(s, t);
  }

  lemma CountKept(s: System, next: System, t: Tid)
    requires t in s.threads && t in next.threads && s.status.active == |LiveThreads(s)|
    requires LiveThreads(next) == if next.threads[t].at.Live? then LiveThreads(s) + {t} else LiveThreads(s) - {t}
    ensures s.threads[t].at.Live? ==> s.status.active >= 1
    ensures |LiveThreads(next)|
         == s.status.active + (if next.threads[t].at.Live? then 1 else 0) - (if s.threads[t].at.Live? then 1 else 0)
  {
    SetSizes(LiveThreads(s), t);
    assert t in LiveThreads(s) <==> s.threads[t].at.Live?;
  }

  lemma AdvanceCount(s: System, t: Tid)
    requires Inv(s) && Enabled(s, Advance(t))
    ensures var next := AdvanceThread(s, t);
            && next.status.active == |LiveThreads(next)|
            && (s.threads[t].at.Live? ==> s.status.active >= 1)
  {
    AdvanceLive(s, t);
    CountKept(s, AdvanceThread(s, t), t);
    ActiveChange(s, t);
  }

  lemma AdvanceStatus(s: System, t: Tid)
    requires Inv(s) && Enabled(s, Advance(t))
    ensures var next := AdvanceThread(s, t);
            && next.status.active == |LiveThreads(next)|
            && (next.status.phase == Suspended ==> next.status.active == 0)
            && (next.status.phase == Suspending ==> next.status.active >= 1)
            && (next.status.phase == s.status.phase || (s.status.phase == Suspending && next.status.phase == Suspended))
            && (next.swept == s.swept)
  {
    AdvanceCount(s, t);
    assert ThreadOk(s, t);
  }

  lemma AdvanceThreadOk(s: System, t: Tid, u: Tid)
    requires Inv(s) && Enabled(s, Advance(t)) && u in s.threads && u != t
    ensures u in AdvanceThread(s, t).threads && ThreadOk(AdvanceThread(s, t), u)
  {
    AdvanceStatus(s, t);
    AdvanceOthers(s, t, u);
    AdvanceSharedWith(s, t, u);
    assert ThreadOk(s, u);
  }

  lemma LockedSelfOk(s: System, t: Tid)
    requires Inv(s) && Enabled(s, Advance(t)) && HoldsLock(s.threads[t].at)
    ensures t in AdvanceThread(s, t).threads && ThreadOk(AdvanceThread(s, t), t)
  {
    assert ThreadOk(s, t);
  }

  lemma LeavingSelfOk(s: System, t: Tid)
    requires Inv(s) && Enabled(s, Advance(t))
    requires s.threads[t].at.Live? || s.threads[t].at.Serving? || s.threads[t].at.Refused?
    ensures t in AdvanceThread(s, t).threads && ThreadOk(AdvanceThread(s, t), t)
  {
    assert ThreadOk(s, t);
    assert AdvanceThread(s, t).threads[t].at == Finished;
  }

  lemma ArrivingSelfOk(s: System, t: Tid)
    requires Inv(s) && Enabled(s, Advance(t))
    requires s.threads[t].at.Start? || s.threads[t].at.Registered?
             || s.threads[t].at.WantLock? || s.threads[t].at.Woken?
    ensures t in AdvanceThread(s, t).threads && ThreadOk(AdvanceThread(s, t), t)
  {
    assert ThreadOk(s, t);
  }

  lemma AdvanceSelfOk(s: System, t: Tid)
    requires Inv(s) && Enabled(s, Advance(t))
    ensures t in AdvanceThread(s, t).threads && ThreadOk(AdvanceThread(s, t), t)
  {
    var at := s.threads[t].at;
    if HoldsLock(at) {
      LockedSelfOk(s, t);
    } else if at.Live? || at.Serving? || at.Refused? {
      LeavingSelfOk(s, t);
    } else {
      ArrivingSelfOk(s, t);
    }
  }

  lemma AdvanceShared(s: System, t: Tid)
    requires Inv(s) && Enabled(s, Advance(t))
    ensures AdvanceThread(s, t).threads.Keys == s.threads.Keys && SharedOk(AdvanceThread(s, t))
  {
    AdvanceStatus(s, t);
    AdvanceKeys(s, t);
    assert ThreadOk(s, t);
  }

  lemma AdvanceInv(s: System, t: Tid)
    requires Inv(s) && Enabled(s, Advance(t))
    ensures Inv(Apply(s, Advance(t)))
  {
    var next := AdvanceThread(s, t);
    AdvanceShared(s, t);
    forall u | u in next.threads
      ensures ThreadOk(next, u)
    {
      if u == t {
        AdvanceSelfOk(s, t);
      } else {
        AdvanceThreadOk(s, t, u);
      }
    }
  }

  /** Steps of the controlling threads: the phase, `accepting` and the sweeps. */
  lemma ControlInv(s: System, step: Step)
    requires Inv(s) && Enabled(s, step) && !step.Advance? && !step.Spawn? && !step.Spurious?
    ensures Inv(Apply(s, step))
  {
    var next := Apply(s, step);
    assert LiveThreads(next) == LiveThreads(s);
    assert next.threads.Keys == s.threads.Keys;
    forall u | u in next.threads
      ensures ThreadOk(next, u)
    {
      assert ThreadOk(s, u);
    }
  }

  lemma SpawnInv(s: System, t: Tid, role: Role)
    requires Inv(s) && t !in s.threads
    ensures Inv(Apply(s, Spawn(t, role)))
  {
    var next := Apply(s, Spawn(t, role));
    assert LiveThreads(next) == LiveThreads(s);
    forall u | u in next.threads
      ensures ThreadOk(next, u)
    {
      if u != t {
        assert ThreadOk(s, u);
      }
    }
  }

  lemma SpuriousInv(s: System, t: Tid)
    requires Inv(s) && Enabled(s, Spurious(t))
    ensures Inv(Apply(s, Spurious(t)))
  {
    var next := Apply(s, Spurious(t));
    LiveAfterMove(s, t, Woken);
    assert LiveThreads(s) - {t} == LiveThreads(s);
    forall u | u in next.threads
      ensures ThreadOk(next, u)
    {
      assert ThreadOk(s, u);
    }
  }

  lemma StepInv(s: System, step: Step)
    requires Inv(s) && Enabled(s, step)
    ensures Inv(Apply(s, step))
  {
    match step
    case Advance(t) => AdvanceInv(s, t);
    case Spawn(t, role) => SpawnInv(s, t, role);
    case Spurious(t) => SpuriousInv(s, t);
    case _ => ControlInv(s, step);
  }

  // ---- Every run ----

  /** A run as the list of steps taken; each must be enabled when it is taken. */
  ghost predicate Runs(s: System, steps: seq<Step>)
    decreases |steps|
  {
    steps != [] ==> Enabled(s, steps[0]) && Runs(Apply(s, steps[0]), steps[1..])
  }

  ghost function After(s: System, steps: seq<Step>): System
    requires Runs(s, steps)
    decreases |steps|
  {
    if steps == [] then s else After(Apply(s, steps[0]), steps[1..])
  }

  lemma {:induction false} RunInv(s: System, steps: seq<Step>)
    requires Inv(s) && Runs(s, steps)
    ensures Inv(After(s, steps))
    decreases |steps|
  {
    if steps != [] {
      StepInv(s, steps[0]);
      RunInv(Apply(s, steps[0]), steps[1..]);
    }
  }

  /**
   * In every reachable state, however the threads interleave: the count is the number of live
   * executions, Suspended means none is live, Suspending means some is, and a thread is blocked
   * in the condition variable only while the gateway is suspending or suspended.
   */
  lemma LifecycleSafety(steps: seq<Step>)
    requires Runs(Initial(), steps)
    ensures var s := After(Initial(), steps);
            && s.status.active == |LiveThreads(s)|
            && (s.status.phase == Suspended ==> LiveThreads(s) == {})
            && (s.status.phase == Suspending ==> LiveThreads(s) != {})
            && (forall t :: t in s.threads && s.threads[t].at.Blocked? ==> Waits(s.status.phase))
  {
    RunInv(Initial(), steps);
    var s := After(Initial(), steps);
    assert forall t :: t in s.threads && s.threads[t].at.Blocked? ==> ThreadOk(s, t);
  }

  /** An execution starts only while Running and accepting, and Stopping is never left. */
  lemma StartsOnlyRunning(s: System, step: Step, t: Tid)
    requires Inv(s) && Enabled(s, step)
    ensures t in LiveThreads(Apply(s, step)) && t !in LiveThreads(s) ==>
              s.status.phase == Running && s.accepting && Apply(s, step).status.active == s.status.active + 1
    ensures s.status.phase == Stopping ==> Apply(s, step).status.phase == Stopping
    ensures !s.accepting ==> !Apply(s, step).accepting
  {
    if step.Advance? {
      assert ThreadOk(s, step.tid);
      AdvanceLive(s, step.tid);
    }
  }

  /**
   * When `Runtime::drop` has finished its sweep, every connection past its checks is cancelled:
   * it registered before it loaded `accepting`, and the sweep came after `accepting` was cleared.
   */
  lemma DropCancelsAll(steps: seq<Step>, t: Tid)
    requires Runs(Initial(), steps)
    ensures var s := After(Initial(), steps);
            s.dropStage == 3 && t in s.threads && s.threads[t].at.Serving? ==> t in s.cancelled
  {
    RunInv(Initial(), steps);
    var s := After(Initial(), steps);
    if t in s.threads {
      assert ThreadOk(s, t);
    }
  }

  /**
   * After a suspend and its sweep, and until a resume takes effect, every connection past its
   * checks is cancelled, those that were about to pass them when the phase changed included.
   */
  lemma {:induction false} SuspendCancelsAll(before: seq<Step>, between: seq<Step>, later: seq<Step>, t: Tid)
    requires Runs(Initial(), before)
    requires Runs(After(Initial(), before), [Suspend] + between + [Sweep] + later)
    requires forall i :: 0 <= i < |between| ==> !between[i].Resume?
    requires forall i :: 0 <= i < |later| ==> !later[i].Resume?
    ensures var s := After(After(Initial(), before), [Suspend] + between + [Sweep] + later);
            t in s.threads && s.threads[t].at.Serving? ==> t in s.cancelled
  {
    RunInv(Initial(), before);
    var start := After(Initial(), before);
    var rest := [Suspend] + between + [Sweep] + later;
    assert rest[0] == Suspend && rest[1..] == between + ([Sweep] + later);
    StepInv(start, Suspend);
    var suspended := Apply(start, Suspend);
    StaysSuspended(suspended, between, [Sweep] + later);
    var middle := After(suspended, between);
    assert ([Sweep] + later)[1..] == later;
    StepInv(middle, Sweep);
    StaysSwept(Apply(middle, Sweep), later);
    var s := After(Apply(middle, Sweep), later);
    if t in s.threads {
      assert ThreadOk(s, t);
    }
  }

  lemma StepStaysSuspended(s: System, step: Step)
    requires Inv(s) && Enabled(s, step) && s.status.phase != Running && !step.Resume?
    ensures Apply(s, step).status.phase != Running
    ensures s.swept ==> Apply(s, step).swept
  {
    if step.Advance? {
      AdvanceStatus(s, step.tid);
    }
  }

  /** Without a resume the phase does not go back to Running. */
  lemma {:induction false} StaysSuspended(s: System, steps: seq<Step>, rest: seq<Step>)
    requires Inv(s) && s.status.phase != Running && Runs(s, steps + rest)
    requires forall i :: 0 <= i < |steps| ==> !steps[i].Resume?
    ensures Runs(s, steps) && Runs(After(s, steps), rest)
    ensures After(s, steps + rest) == After(After(s, steps), rest)
    ensures Inv(After(s, steps)) && After(s, steps).status.phase != Running
    decreases |steps|
  {
    if steps == [] {
      assert steps + rest == rest;
    } else {
      assert (steps + rest)[1..] == steps[1..] + rest;
      StepInv(s, steps[0]);
      StepStaysSuspended(s, steps[0]);
      StaysSuspended(Apply(s, steps[0]), steps[1..], rest);
    }
  }

  lemma {:induction false} StaysSwept(s: System, steps: seq<Step>)
    requires Inv(s) && s.swept && Runs(s, steps)
    requires forall i :: 0 <= i < |steps| ==> !steps[i].Resume?
    ensures Inv(After(s, steps)) && After(s, steps).swept
    decreases |steps|
  {
    if steps != [] {
      StepInv(s, steps[0]);
      StepStaysSuspended(s, steps[0]);
      StaysSwept(Apply(s, steps[0]), steps[1..]);
    }
  }

  // ---- No thread stays behind ----

  /** How many of its own steps a thread still needs to leave the waiting protocol, once nothing blocks it. */
  function Rank(at: Point): nat {
    match at
    case Start => 7
    case Registered => 6
    case WantLock => 5
    case FirstLoad => 4
    case Blocked => 4
    case Woken => 3
    case PhaseTest => 2
    case LoopLoad => 1
    case LastLoad => 1
    case _ => 0
  }

  /**
   * Once the gateway is Running or Stopping, every step of a thread inside the protocol brings it
   * nearer to its end and none blocks it; and if such a thread cannot step, the thread that holds
   * the lock can. So a waiting thread gets through or is refused as soon as it is scheduled.
   */
  lemma WaitersProgress(s: System, t: Tid)
    requires Inv(s) && t in s.threads && Rank(s.threads[t].at) > 0 && !Waits(s.status.phase)
    ensures !s.threads[t].at.Blocked?
    ensures Enabled(s, Advance(t)) ==>
              Rank(Apply(s, Advance(t)).threads[t].at) < Rank(s.threads[t].at)
              && Apply(s, Advance(t)).status.phase == s.status.phase
    ensures !Enabled(s, Advance(t)) ==>
              s.lock.Some? && s.lock.value in s.threads && Enabled(s, Advance(s.lock.value))
              && Rank(s.threads[s.lock.value].at) > 0
  {
    assert ThreadOk(s, t);
    if s.lock.Some? {
      assert ThreadOk(s, s.lock.value);
    }
  }

  // ---- What becomes of a thread that arrives ----

  /** `count` steps of one thread in a row. */
  function Own(t: Tid, count: nat): seq<Step> {
    seq(count, _ => Advance(t))
  }

  lemma OwnStep(s: System, t: Tid, count: nat)
    requires count > 0 && Enabled(s, Advance(t)) && Runs(AdvanceThread(s, t), Own(t, count - 1))
    ensures Runs(s, Own(t, count)) && After(s, Own(t, count)) == After(AdvanceThread(s, t), Own(t, count - 1))
  {
    assert Own(t, count)[1..] == Own(t, count - 1);
  }

  /** With the lock free: a thread that wants it goes in if the gateway is running and accepting. */
  lemma GoesIn(s: System, t: Tid)
    requires t in s.threads && s.threads[t].at.WantLock? && s.lock.None?
    requires s.accepting && s.status.phase == Running
    ensures Runs(s, Own(t, 4))
    ensures var next := After(s, Own(t, 4));
            && t in next.threads && next.lock.None?
            && next.threads[t].at == (match s.threads[t].role
                                      case Job => Live
                                      case Connection => Serving
                                      case Acceptor => Finished)
            && next.status == (if s.threads[t].role.Job? then Status(Running, s.status.active + 1) else s.status)
  {
    var s1 := AdvanceThread(s, t);
    var s2 := AdvanceThread(s1, t);
    var s3 := AdvanceThread(s2, t);
    var s4 := AdvanceThread(s3, t);
    assert Own(t, 0) == [];
    OwnStep(s3, t, 1);
    OwnStep(s2, t, 2);
    OwnStep(s1, t, 3);
    OwnStep(s, t, 4);
  }

  /** While it is suspended the thread ends up blocked, and has given the lock back. */
  lemma WaitsOutside(s: System, t: Tid)
    requires t in s.threads && s.threads[t].at.WantLock? && s.lock.None?
    requires s.accepting && Waits(s.status.phase)
    ensures Runs(s, Own(t, 4))
    ensures var next := After(s, Own(t, 4));
            t in next.threads && next.threads[t].at.Blocked? && next.lock.None? && next.status == s.status
  {
    var s1 := AdvanceThread(s, t);
    var s2 := AdvanceThread(s1, t);
    var s3 := AdvanceThread(s2, t);
    var s4 := AdvanceThread(s3, t);
    assert Own(t, 0) == [];
    OwnStep(s3, t, 1);
    OwnStep(s2, t, 2);
    OwnStep(s1, t, 3);
    OwnStep(s, t, 4);
  }

  /** Once resumed, a blocked thread takes the lock, passes its tests and goes in. */
  lemma ResumedGoesIn(s: System, t: Tid)
    requires t in s.threads && s.threads[t].at.Blocked? && s.lock.None? && s.accepting && Waits(s.status.phase)
    ensures Enabled(s, Resume) && Runs(Apply(s, Resume), Own(t, 3))
    ensures var next := After(Apply(s, Resume), Own(t, 3));
            && t in next.threads && next.lock.None? && next.status.phase == Running
            && next.threads[t].at == (match s.threads[t].role
                                      case Job => Live
                                      case Connection => Serving
                                      case Acceptor => Finished)
  {
    var s0 := Apply(s, Resume);
    assert s0.threads[t] == Thread(s.threads[t].role, Woken);
    var s1 := AdvanceThread(s0, t);
    var s2 := AdvanceThread(s1, t);
    var s3 := AdvanceThread(s2, t);
    assert Own(t, 0) == [];
    OwnStep(s2, t, 1);
    OwnStep(s1, t, 2);
    OwnStep(s0, t, 3);
  }

  /** After a stop, or once nothing more is accepted, the thread is turned away and holds nothing. */
  lemma TurnedAway(s: System, t: Tid)
    requires t in s.threads && s.threads[t].at.WantLock? && s.lock.None?
    requires !s.accepting || s.status.phase == Stopping
    ensures exists count :: 2 <= count <= 3 && Runs(s, Own(t, count))
              && var next := After(s, Own(t, count));
                 t in next.threads && next.threads[t].at.Refused? && next.lock.None? && next.status == s.status
  {
    var count := if s.accepting then 3 else 2;
    var s1 := AdvanceThread(s, t);
    var s2 := AdvanceThread(s1, t);
    assert Own(t, 0) == [];
    if s.accepting {
      OwnStep(s2, t, 1);
    }
    OwnStep(s1, t, count - 1);
    OwnStep(s, t, count);
    var next := After(s, Own(t, count));
    assert t in next.threads && next.threads[t].at.Refused? && next.lock.None? && next.status == s.status;
  }

  /** A thread about to wait is turned away if nothing is accepted any more. */
  lemma LastLookRefuses(s: System, t: Tid)
    requires Enabled(s, Advance(t)) && s.threads[t].at.LoopLoad? && !s.accepting
    ensures t in AdvanceThread(s, t).threads
    ensures AdvanceThread(s, t).threads[t].at.Refused? && AdvanceThread(s, t).lock.None?
  {
  }

  /** A connection's flag, once set, stays set, and only registered connections get one. */
  lemma CancelledStays(s: System, step: Step)
    requires Enabled(s, step)
    ensures s.cancelled <= Apply(s, step).cancelled <= s.cancelled + s.registry
    ensures step.Sweep? || step.DropSweep? ==> s.registry <= Apply(s, step).cancelled
  {
  }
}
