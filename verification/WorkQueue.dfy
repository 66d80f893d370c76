/**
 The thread work queue of support/misc/workqueue.c as a protocol.

 One worker serves any number of synchronous submit calls and shutdown calls;
 the creating thread waits for the worker to come up.  An `Action` is one
 atomic step of one thread.  A condition variable wakes a waiter only when it
 is signalled: the source waits without re-testing a predicate, so it relies
 on this, although POSIX does not promise it.
 */
module WorkQueue {
  import opened Wrappers

  datatype Thread = Creator | Worker | Submitter(i: nat) | Stopper(i: nat)

  /** xthread_workqueue_alloc once the thread exists (workqueue.c:148-155). */
  datatype CreatorPc = Creating | CreatorAsleep | CreatorWaking | CreatorUnlocking | Created

  /** xthread_workqueue_do_work (workqueue.c:91-110) and the release behind it. */
  datatype WorkerPc = Starting | Announcing | Looping | Running(job: nat) | Notifying(job: nat)
                    | Checking | AboutToSleep | Asleep | WakingUp | Leaving | Gone | Freed

  /** xthread_work_run_sync (workqueue.c:164-180); a call in `Locking` waits for the mutex. */
  datatype SubmitPc = NotCalled | Locking | Enqueueing | Signalling | AboutToWait | Waiting
                    | Waking | Unlocking | Returned

  /** xthread_workqueue_shutdown (workqueue.c:112-118). */
  datatype StopPc = StopNotCalled | StopLocking | Setting | StopSignalling | StopUnlocking | StopDone

  /** `submitted` and `ran` record the order in which jobs were queued and their functions were called. */
  datatype State = State(
    owner: Option<Thread>,
    shutdown: bool,
    queue: seq<nat>,
    creator: CreatorPc,
    worker: WorkerPc,
    submits: seq<SubmitPc>,
    stops: seq<StopPc>,
    submitted: seq<nat>,
    ran: seq<nat>)

  datatype Action =
    | CreatorWait | CreatorWake | CreatorUnlock
    | WorkerLock | WorkerAnnounce(woken: set<Thread>) | WorkerDequeue | WorkerRun | WorkerNotify
    | WorkerCheck | WorkerSleep | WorkerWake | WorkerLeave | WorkerFree
    | SubmitCall(i: nat) | SubmitLock(i: nat) | SubmitEnqueue(i: nat) | SubmitSignal(i: nat, woken: set<Thread>)
    | SubmitWait(i: nat) | SubmitWake(i: nat) | SubmitUnlock(i: nat)
    | StopCall(i: nat) | StopLock(i: nat) | StopSet(i: nat) | StopSignal(i: nat, woken: set<Thread>)
    | StopUnlock(i: nat)

  // ----- the steps ---------------------------------------------------------

  function Init(submitCalls: nat, stopCalls: nat): State {
    State(Some(Creator), false, [], Creating, Starting,
          seq(submitCalls, _ => NotCalled), seq(stopCalls, _ => StopNotCalled), [], [])
  }

  /** The threads that wait on the queue's own condition variable. */
  function Waiters(s: State): set<Thread> {
    (if s.worker == Asleep then {Worker} else {}) + (if s.creator == CreatorAsleep then {Creator} else {})
  }

  /** pthread_cond_signal wakes at least one waiter, when there is one. */
  predicate WakesSome(s: State, woken: set<Thread>) {
    woken <= Waiters(s) && (Waiters(s) != {} ==> woken != {})
  }

  function Wake(s: State, woken: set<Thread>): State {
    s.(worker := if Worker in woken then WakingUp else s.worker,
       creator := if Creator in woken then CreatorWaking else s.creator)
  }

  predicate SubmitAt(s: State, i: nat, pc: SubmitPc) { i < |s.submits| && s.submits[i] == pc }

  predicate StopAt(s: State, i: nat, pc: StopPc) { i < |s.stops| && s.stops[i] == pc }

  /** A call begins on a queue that was returned to its caller and still exists. */
  predicate Usable(s: State) { s.creator == Created && s.worker != Freed }

  /** A call can take a step only while the queue and its mutex exist. */
  predicate Enabled(s: State, a: Action) {
    match a
    case CreatorWait => s.creator == Creating
    case CreatorWake => s.creator == CreatorWaking && s.owner == None
    case CreatorUnlock => s.creator == CreatorUnlocking
    case WorkerLock => s.worker == Starting && s.owner == None
    case WorkerAnnounce(woken) => s.worker == Announcing && WakesSome(s, woken)
    case WorkerDequeue => s.worker == Looping
    case WorkerRun => s.worker.Running?
    case WorkerNotify => s.worker.Notifying?
    case WorkerCheck => s.worker == Checking
    case WorkerSleep => s.worker == AboutToSleep
    case WorkerWake => s.worker == WakingUp && s.owner == None
    case WorkerLeave => s.worker == Leaving
    case WorkerFree => s.worker == Gone
    case SubmitCall(i) => SubmitAt(s, i, NotCalled) && Usable(s)
    case SubmitLock(i) => SubmitAt(s, i, Locking) && s.owner == None && s.worker != Freed
    case SubmitEnqueue(i) => SubmitAt(s, i, Enqueueing) && s.worker != Freed
    case SubmitSignal(i, woken) => SubmitAt(s, i, Signalling) && WakesSome(s, woken) && s.worker != Freed
    case SubmitWait(i) => SubmitAt(s, i, AboutToWait) && s.worker != Freed
    case SubmitWake(i) => SubmitAt(s, i, Waking) && s.owner == None && s.worker != Freed
    case SubmitUnlock(i) => SubmitAt(s, i, Unlocking) && s.worker != Freed
    case StopCall(i) => StopAt(s, i, StopNotCalled) && Usable(s)
    case StopLock(i) => StopAt(s, i, StopLocking) && s.owner == None && s.worker != Freed
    case StopSet(i) => StopAt(s, i, Setting) && s.worker != Freed
    case StopSignal(i, woken) => StopAt(s, i, StopSignalling) && WakesSome(s, woken) && s.worker != Freed
    case StopUnlock(i) => StopAt(s, i, StopUnlocking) && s.worker != Freed
  }

  function MoveSubmit(s: State, i: nat, pc: SubmitPc): State
    requires i < |s.submits|
  {
    s.(submits := s.submits[i := pc])
  }

  function MoveStop(s: State, i: nat, pc: StopPc): State
    requires i < |s.stops|
  {
    s.(stops := s.stops[i := pc])
  }

  /** The effect of a step.  Waiting on a condition variable releases the mutex in the same step. */
  function Do(s: State, a: Action): State
    requires Enabled(s, a)
  {
    match a
    case CreatorWait => s.(creator := CreatorAsleep, owner := None)
    case CreatorWake => s.(creator := CreatorUnlocking, owner := Some(Creator))
    case CreatorUnlock => s.(creator := Created, owner := None)
    case WorkerLock => s.(worker := Announcing, owner := Some(Worker))
    case WorkerAnnounce(woken) => Wake(s, woken).(worker := Looping)
    case WorkerDequeue =>
      if s.queue == [] then s.(worker := Checking)
      else s.(worker := Running(s.queue[0]), queue := s.queue[1..])
    case WorkerRun => s.(worker := Notifying(s.worker.job), ran := s.ran + [s.worker.job])
    case WorkerNotify =>
      var t := s.(worker := Looping);
      if SubmitAt(s, s.worker.job, Waiting) then MoveSubmit(t, s.worker.job, Waking) else t
    case WorkerCheck => s.(worker := if s.shutdown then Leaving else AboutToSleep)
    case WorkerSleep => s.(worker := Asleep, owner := None)
    case WorkerWake => s.(worker := Looping, owner := Some(Worker))
    case WorkerLeave => s.(worker := Gone, owner := None)
    case WorkerFree => s.(worker := Freed)
    case SubmitCall(i) => MoveSubmit(s, i, Locking)
    case SubmitLock(i) => MoveSubmit(s, i, Enqueueing).(owner := Some(Submitter(i)))
    case SubmitEnqueue(i) => MoveSubmit(s, i, Signalling).(queue := s.queue + [i], submitted := s.submitted + [i])
    case SubmitSignal(i, woken) => Wake(MoveSubmit(s, i, AboutToWait), woken)
    case SubmitWait(i) => MoveSubmit(s, i, Waiting).(owner := None)
    case SubmitWake(i) => MoveSubmit(s, i, Unlocking).(owner := Some(Submitter(i)))
    case SubmitUnlock(i) => MoveSubmit(s, i, Returned).(owner := None)
    case StopCall(i) => MoveStop(s, i, StopLocking)
    case StopLock(i) => MoveStop(s, i, Setting).(owner := Some(Stopper(i)))
    case StopSet(i) => MoveStop(s, i, StopSignalling).(shutdown := true)
    case StopSignal(i, woken) => Wake(MoveStop(s, i, StopUnlocking), woken)
    case StopUnlock(i) => MoveStop(s, i, StopDone).(owner := None)
  }

  // ----- runs --------------------------------------------------------------

  predicate IsRun(s: State, run: seq<Action>)
    decreases |run|
  {
    run == [] || (Enabled(s, run[0]) && IsRun(Do(s, run[0]), run[1..]))
  }

  function After(s: State, run: seq<Action>): State
    requires IsRun(s, run)
    decreases |run|
  {
    if run == [] then s else After(Do(s, run[0]), run[1..])
  }

  // ----- the invariant -----------------------------------------------------

  predicate CreatorHolds(pc: CreatorPc) { pc == Creating || pc == CreatorUnlocking }

  predicate WorkerHolds(pc: WorkerPc) {
    match pc
    case Announcing => true
    case Looping => true
    case Running(_) => true
    case Notifying(_) => true
    case Checking => true
    case AboutToSleep => true
    case Leaving => true
    case _ => false
  }

  predicate SubmitHolds(pc: SubmitPc) {
    pc == Enqueueing || pc == Signalling || pc == AboutToWait || pc == Unlocking
  }

  predicate StopHolds(pc: StopPc) { pc == Setting || pc == StopSignalling || pc == StopUnlocking }

  /** The mutex is held by exactly the thread whose program counter says so. */
  ghost predicate Mutex(s: State) {
    && (s.owner == Some(Creator) <==> CreatorHolds(s.creator))
    && (s.owner == Some(Worker) <==> WorkerHolds(s.worker))
    && (forall i :: 0 <= i < |s.submits| ==> (s.owner == Some(Submitter(i)) <==> SubmitHolds(s.submits[i])))
    && (forall i :: 0 <= i < |s.stops| ==> (s.owner == Some(Stopper(i)) <==> StopHolds(s.stops[i])))
    && (s.owner.Some? && s.owner.value.Submitter? ==> s.owner.value.i < |s.submits|)
    && (s.owner.Some? && s.owner.value.Stopper? ==> s.owner.value.i < |s.stops|)
  }

  function InHand(s: State): seq<nat> { if s.worker.Running? then [s.worker.job] else [] }

  ghost predicate Distinct(q: seq<nat>) { forall i, j :: 0 <= i < j < |q| ==> q[i] != q[j] }

  predicate Begun(pc: SubmitPc) { pc != NotCalled && pc != Locking && pc != Enqueueing }

  /** Jobs run in the order they were queued, each once. */
  ghost predicate Fifo(s: State) {
    && s.submitted == s.ran + InHand(s) + s.queue
    && Distinct(s.submitted)
    && (forall i {:trigger i in s.submitted} :: i in s.submitted ==> 0 <= i < |s.submits|)
    && (forall i :: 0 <= i < |s.submits| ==> (i in s.submitted <==> Begun(s.submits[i])))
  }

  /** What a submit call's program counter says about its job. */
  ghost predicate Jobs(s: State) {
    && (s.worker.Running? ==> SubmitAt(s, s.worker.job, Waiting))
    && (s.worker.Notifying? ==> SubmitAt(s, s.worker.job, Waiting) && s.worker.job in s.ran)
    && (forall i :: 0 <= i < |s.submits| ==>
        match s.submits[i]
        case Signalling => i in s.queue
        case AboutToWait => i in s.queue
        case Waiting => i in s.ran ==> s.worker == Notifying(i)
        case Waking => i in s.ran
        case Unlocking => i in s.ran
        case Returned => i in s.ran
        case _ => true)
  }

  /** Some thread holds the mutex and is about to signal the queue's condition variable. */
  predicate SignalPending(s: State) {
    match s.owner
    case Some(Submitter(i)) => SubmitAt(s, i, Signalling)
    case Some(Stopper(i)) => StopAt(s, i, StopSignalling)
    case _ => false
  }

  /** A worker that is asleep has nothing to do, or is about to be woken; it leaves on an empty queue. */
  ghost predicate Sleep(s: State) {
    && (s.worker == Asleep && (s.queue != [] || s.shutdown) ==> SignalPending(s))
    && (s.worker == Checking ==> s.queue == [])
    && (s.worker == AboutToSleep ==> s.queue == [] && !s.shutdown)
    && (s.worker == Leaving ==> s.queue == [])
    && (s.worker in {Leaving, Gone, Freed} ==> s.shutdown)
  }

  /** Until the queue is returned to its creator nobody else uses it. */
  ghost predicate StartUp(s: State) {
    && (s.creator == Creating ==> s.worker == Starting)
    && (s.creator == CreatorAsleep ==> s.worker == Starting || s.worker == Announcing)
    && (s.creator != Creating && s.creator != CreatorAsleep ==> s.worker != Starting && s.worker != Announcing)
    && (s.creator != Created ==>
        && s.queue == [] && !s.shutdown
        && (forall i :: 0 <= i < |s.submits| ==> s.submits[i] == NotCalled)
        && (forall i :: 0 <= i < |s.stops| ==> s.stops[i] == StopNotCalled))
  }

  ghost predicate Inv(s: State) { Mutex(s) && Fifo(s) && Jobs(s) && Sleep(s) && StartUp(s) }

  lemma InitInv(submitCalls: nat, stopCalls: nat)
    ensures Inv(Init(submitCalls, stopCalls))
  {
  }

  lemma CreatorKeepsInv(s: State, a: Action)
    requires Inv(s) && Enabled(s, a) && (a.CreatorWait? || a.CreatorWake? || a.CreatorUnlock?)
    ensures Inv(Do(s, a))
  {
  }

  lemma WorkerKeepsInv(s: State, a: Action)
    requires Inv(s) && Enabled(s, a)
    requires a.WorkerCheck? || a.WorkerSleep? || a.WorkerWake? || a.WorkerLeave? || a.WorkerFree?
    ensures Inv(Do(s, a))
  {
  }

  lemma WorkerStartKeepsInv(s: State, a: Action)
    requires Inv(s) && Enabled(s, a) && (a.WorkerLock? || a.WorkerAnnounce?)
    ensures Inv(Do(s, a))
  {
  }

  lemma DequeueKeepsInv(s: State)
    requires Inv(s) && Enabled(s, WorkerDequeue)
    ensures Inv(Do(s, WorkerDequeue))
  {
    var t := Do(s, WorkerDequeue);
    if s.queue != [] {
      assert Fifo(t) by { assert t.submitted == t.ran + InHand(t) + t.queue; }
      assert Jobs(t) by { HeadIsWaiting(s); }
    }
  }

  /** The head of the queue is the job of a call that waits, and it has not run. */
  lemma HeadIsWaiting(s: State)
    requires Inv(s) && s.worker == Looping && s.queue != []
    ensures s.queue[0] !in s.ran && SubmitAt(s, s.queue[0], Waiting)
    ensures forall i :: 0 <= i < |s.submits| ==> s.submits[i] != Signalling && s.submits[i] != AboutToWait
  {
    var job := s.queue[0];
    assert s.submitted[|s.ran|] == job;
    assert job in s.submitted;
    assert forall i :: 0 <= i < |s.ran| ==> s.submitted[i] == s.ran[i];
    assert forall i :: 0 <= i < |s.submits| ==> !SubmitHolds(s.submits[i]);
  }

  lemma RunKeepsInv(s: State)
    requires Inv(s) && Enabled(s, WorkerRun)
    ensures Inv(Do(s, WorkerRun))
  {
    var t := Do(s, WorkerRun);
    assert t.submitted == t.ran + InHand(t) + t.queue;
    assert t.ran[|s.ran|] == s.worker.job;
  }

  lemma NotifyKeepsInv(s: State)
    requires Inv(s) && Enabled(s, WorkerNotify)
    ensures Inv(Do(s, WorkerNotify))
  {
  }

  lemma SubmitCallKeepsInv(s: State, i: nat)
    requires Inv(s) && Enabled(s, SubmitCall(i))
    ensures Inv(Do(s, SubmitCall(i)))
  {
  }

  lemma SubmitLockKeepsInv(s: State, i: nat)
    requires Inv(s) && Enabled(s, SubmitLock(i))
    ensures Inv(Do(s, SubmitLock(i)))
  {
  }

  lemma SubmitWakeKeepsInv(s: State, i: nat)
    requires Inv(s) && Enabled(s, SubmitWake(i))
    ensures Inv(Do(s, SubmitWake(i)))
  {
  }

  lemma SubmitUnlockKeepsInv(s: State, i: nat)
    requires Inv(s) && Enabled(s, SubmitUnlock(i))
    ensures Inv(Do(s, SubmitUnlock(i)))
  {
  }

  lemma SubmitSignalKeepsInv(s: State, i: nat, woken: set<Thread>)
    requires Inv(s) && Enabled(s, SubmitSignal(i, woken))
    ensures Inv(Do(s, SubmitSignal(i, woken)))
  {
  }

  lemma SubmitWaitKeepsInv(s: State, i: nat)
    requires Inv(s) && Enabled(s, SubmitWait(i))
    ensures Inv(Do(s, SubmitWait(i)))
  {
    var t := Do(s, SubmitWait(i));
    assert i !in s.ran by {
      var k :| 0 <= k < |s.queue| && s.queue[k] == i;
      var n := |s.ran| + |InHand(s)| + k;
      assert s.submitted[n] == i;
      assert forall j :: 0 <= j < |s.ran| ==> s.submitted[j] == s.ran[j];
    }
  }

  lemma EnqueueKeepsInv(s: State, i: nat)
    requires Inv(s) && Enabled(s, SubmitEnqueue(i))
    ensures Inv(Do(s, SubmitEnqueue(i)))
  {
    var t := Do(s, SubmitEnqueue(i));
    assert t.submitted == t.ran + InHand(t) + t.queue;
    assert t.queue[|s.queue|] == i;
    assert i !in s.submitted;
  }

  lemma StopCallKeepsInv(s: State, i: nat)
    requires Inv(s) && Enabled(s, StopCall(i))
    ensures Inv(Do(s, StopCall(i)))
  {
  }

  lemma StopLockKeepsInv(s: State, i: nat)
    requires Inv(s) && Enabled(s, StopLock(i))
    ensures Inv(Do(s, StopLock(i)))
  {
  }

  lemma StopUnlockKeepsInv(s: State, i: nat)
    requires Inv(s) && Enabled(s, StopUnlock(i))
    ensures Inv(Do(s, StopUnlock(i)))
  {
  }

  lemma StopSetKeepsInv(s: State, i: nat)
    requires Inv(s) && Enabled(s, StopSet(i))
    ensures Inv(Do(s, StopSet(i)))
  {
  }

  lemma StopSignalKeepsInv(s: State, i: nat, woken: set<Thread>)
    requires Inv(s) && Enabled(s, StopSignal(i, woken))
    ensures Inv(Do(s, StopSignal(i, woken)))
  {
  }

  /** Every step of every thread keeps the invariant. */
  lemma StepKeepsInv(s: State, a: Action)
    requires Inv(s) && Enabled(s, a)
    ensures Inv(Do(s, a))
  {
    hide Inv, Do, Enabled;
    match a
    case CreatorWait => CreatorKeepsInv(s, a);
    case CreatorWake => CreatorKeepsInv(s, a);
    case CreatorUnlock => CreatorKeepsInv(s, a);
    case WorkerLock => WorkerStartKeepsInv(s, a);
    case WorkerAnnounce(_) => WorkerStartKeepsInv(s, a);
    case WorkerDequeue => DequeueKeepsInv(s);
    case WorkerRun => RunKeepsInv(s);
    case WorkerNotify => NotifyKeepsInv(s);
    case SubmitCall(i) => SubmitCallKeepsInv(s, i);
    case SubmitLock(i) => SubmitLockKeepsInv(s, i);
    case SubmitEnqueue(i) => EnqueueKeepsInv(s, i);
    case SubmitSignal(i, woken) => SubmitSignalKeepsInv(s, i, woken);
    case SubmitWait(i) => SubmitWaitKeepsInv(s, i);
    case SubmitWake(i) => SubmitWakeKeepsInv(s, i);
    case SubmitUnlock(i) => SubmitUnlockKeepsInv(s, i);
    case StopCall(i) => StopCallKeepsInv(s, i);
    case StopLock(i) => StopLockKeepsInv(s, i);
    case StopSet(i) => StopSetKeepsInv(s, i);
    case StopSignal(i, woken) => StopSignalKeepsInv(s, i, woken);
    case StopUnlock(i) => StopUnlockKeepsInv(s, i);
    case _ => WorkerKeepsInv(s, a);
  }

  lemma {:induction false} RunsKeepInv(s: State, run: seq<Action>)
    requires Inv(s) && IsRun(s, run)
    ensures Inv(After(s, run))
    decreases |run|
  {
    if run != [] {
      StepKeepsInv(s, run[0]);
      RunsKeepInv(Do(s, run[0]), run[1..]);
    }
  }

  // ----- what every interleaving guarantees --------------------------------

  /** `s` is reached by some interleaving of the calls. */
  ghost predicate Reachable(s: State) {
    exists submitCalls: nat, stopCalls: nat, run ::
      IsRun(Init(submitCalls, stopCalls), run) && After(Init(submitCalls, stopCalls), run) == s
  }

  lemma ReachableInv(s: State)
    requires Reachable(s)
    ensures Inv(s)
  {
    var m: nat, n: nat, run :| IsRun(Init(m, n), run) && After(Init(m, n), run) == s;
    InitInv(m, n);
    RunsKeepInv(Init(m, n), run);
  }

  lemma DistinctCounts(q: seq<nat>, x: nat)
    requires Distinct(q)
    ensures multiset(q)[x] <= 1
  {
    if q != [] {
      var n := |q| - 1;
      assert q == q[..n] + [q[n]];
      DistinctCounts(q[..n], x);
      if multiset(q[..n])[x] == 1 {
        assert x in q[..n];
        var k :| 0 <= k < n && q[..n][k] == x;
        assert q[k] == x;
      }
    }
  }

  /** A synchronous submit returns only after its function ran, and it ran exactly once. */
  lemma ReturnsAfterOneRun(s: State, i: nat)
    requires Reachable(s) && i < |s.submits|
    ensures multiset(s.ran)[i] <= 1
    ensures s.submits[i] in {Waking, Unlocking, Returned} ==> multiset(s.ran)[i] == 1
  {
    ReachableInv(s);
    assert Distinct(s.ran) by {
      assert forall k :: 0 <= k < |s.ran| ==> s.submitted[k] == s.ran[k];
    }
    DistinctCounts(s.ran, i);
  }

  /** Functions are called in the order in which their jobs were queued, and none is skipped. */
  lemma RunsInQueueOrder(s: State)
    requires Reachable(s)
    ensures s.ran <= s.submitted
    ensures s.submitted == s.ran + InHand(s) + s.queue
  {
    ReachableInv(s);
  }

  /** The worker touches a job only while its call is blocked: the item is still on the caller's stack. */
  lemma WorkerTouchesOnlyBlockedCalls(s: State)
    requires Reachable(s)
    ensures s.worker.Running? || s.worker.Notifying? ==> SubmitAt(s, s.worker.job, Waiting)
    ensures s.worker == Looping && s.queue != [] ==> SubmitAt(s, s.queue[0], Waiting)
  {
    ReachableInv(s);
    if s.worker == Looping && s.queue != [] { HeadIsWaiting(s); }
  }

  /**
   No wakeup is lost.  A sleeping worker has no work, unless the thread that
   gave it some still holds the mutex and is about to signal; a waiting call's
   job is queued, or in the hands of a worker that has yet to signal it.
   */
  lemma NoLostWakeup(s: State)
    requires Reachable(s)
    ensures s.worker == Asleep ==> (s.queue == [] && !s.shutdown) || SignalPending(s)
    ensures forall i :: 0 <= i < |s.submits| && s.submits[i] == Waiting ==>
              i in s.queue || s.worker == Running(i) || s.worker == Notifying(i)
  {
    ReachableInv(s);
    forall i | 0 <= i < |s.submits| && s.submits[i] == Waiting
      ensures i in s.queue || s.worker == Running(i) || s.worker == Notifying(i)
    {
      assert i in s.submitted;
    }
  }

  /** The worker leaves only after a shutdown, on an empty queue, with every queued job run and signalled. */
  lemma LeavesOnlyWhenDone(s: State)
    requires Reachable(s) && s.worker == Leaving
    ensures s.shutdown && s.queue == [] && s.ran == s.submitted
    ensures forall i :: 0 <= i < |s.submits| ==> s.submits[i] != Waiting
  {
    ReachableInv(s);
    NoLostWakeup(s);
  }

  /**
   Once it has left nothing is run any more, so a call that took the mutex only
   then waits for ever: its job stays in the queue.
   */
  lemma {:induction false} NothingRunsAfterwards(s: State, run: seq<Action>)
    requires Inv(s) && s.worker in {Leaving, Gone, Freed} && IsRun(s, run)
    ensures After(s, run).ran == s.ran
    ensures forall i :: 0 <= i < |s.submits| && s.submits[i] == Waiting ==> SubmitAt(After(s, run), i, Waiting)
    decreases |run|
  {
    hide Inv, Do, Enabled;
    if run != [] {
      StepKeepsInv(s, run[0]);
      NothingRunsNext(s, run[0]);
      NothingRunsAfterwards(Do(s, run[0]), run[1..]);
    }
  }

  lemma NothingRunsNext(s: State, a: Action)
    requires Inv(s) && s.worker in {Leaving, Gone, Freed} && Enabled(s, a)
    ensures var t := Do(s, a);
            && t.ran == s.ran && t.worker in {Leaving, Gone, Freed} && |t.submits| == |s.submits|
            && forall i :: 0 <= i < |s.submits| && s.submits[i] == Waiting ==> t.submits[i] == Waiting
  {
  }

  // ----- every call returns ------------------------------------------------

  function SubmitWeight(pc: SubmitPc): nat {
    match pc
    case NotCalled => 16
    case Locking => 15
    case Enqueueing => 14
    case Signalling => 10
    case AboutToWait => 4
    case Waiting => 3
    case Waking => 2
    case Unlocking => 1
    case Returned => 0
  }

  function StopWeight(pc: StopPc): nat {
    match pc
    case StopNotCalled => 10
    case StopLocking => 9
    case Setting => 8
    case StopSignalling => 7
    case StopUnlocking => 1
    case StopDone => 0
  }

  function CreatorWeight(pc: CreatorPc): nat {
    match pc
    case Creating => 4
    case CreatorAsleep => 3
    case CreatorWaking => 2
    case CreatorUnlocking => 1
    case Created => 0
  }

  function WorkerWeight(pc: WorkerPc): nat {
    match pc
    case Starting => 6
    case Announcing => 5
    case WakingUp => 5
    case Looping => 4
    case Running(_) => 6
    case Notifying(_) => 5
    case Checking => 3
    case AboutToSleep => 1
    case Asleep => 0
    case Leaving => 2
    case Gone => 1
    case Freed => 0
  }

  function Submits(pcs: seq<SubmitPc>): nat {
    if pcs == [] then 0 else SubmitWeight(pcs[0]) + Submits(pcs[1..])
  }

  function Stops(pcs: seq<StopPc>): nat {
    if pcs == [] then 0 else StopWeight(pcs[0]) + Stops(pcs[1..])
  }

  /** A bound on the number of steps the calls can still take. */
  function Rank(s: State): nat {
    Submits(s.submits) + Stops(s.stops) + CreatorWeight(s.creator) + WorkerWeight(s.worker) + 3 * |s.queue|
  }

  lemma {:induction false} SubmitsAfterMove(pcs: seq<SubmitPc>, i: nat, pc: SubmitPc)
    requires i < |pcs|
    ensures Submits(pcs[i := pc]) == Submits(pcs) - SubmitWeight(pcs[i]) + SubmitWeight(pc)
  {
    if i == 0 {
      assert pcs[i := pc][1..] == pcs[1..];
    } else {
      assert pcs[i := pc][1..] == pcs[1..][i - 1 := pc];
      SubmitsAfterMove(pcs[1..], i - 1, pc);
    }
  }

  lemma {:induction false} StopsAfterMove(pcs: seq<StopPc>, i: nat, pc: StopPc)
    requires i < |pcs|
    ensures Stops(pcs[i := pc]) == Stops(pcs) - StopWeight(pcs[i]) + StopWeight(pc)
  {
    if i == 0 {
      assert pcs[i := pc][1..] == pcs[1..];
    } else {
      assert pcs[i := pc][1..] == pcs[1..][i - 1 := pc];
      StopsAfterMove(pcs[1..], i - 1, pc);
    }
  }

  lemma SubmitLowersRank(s: State, i: nat, a: Action)
    requires Enabled(s, a)
    requires a == SubmitCall(i) || a == SubmitLock(i) || a == SubmitEnqueue(i) || (a.SubmitSignal? && a.i == i)
          || a == SubmitWait(i) || a == SubmitWake(i) || a == SubmitUnlock(i)
    ensures Rank(Do(s, a)) < Rank(s)
  {
    var t := Do(s, a);
    SubmitsAfterMove(s.submits, i, t.submits[i]);
    assert t.submits == s.submits[i := t.submits[i]];
  }

  lemma StopLowersRank(s: State, i: nat, a: Action)
    requires Enabled(s, a)
    requires a == StopCall(i) || a == StopLock(i) || a == StopSet(i) || (a.StopSignal? && a.i == i)
          || a == StopUnlock(i)
    ensures Rank(Do(s, a)) < Rank(s)
  {
    var t := Do(s, a);
    StopsAfterMove(s.stops, i, t.stops[i]);
    assert t.stops == s.stops[i := t.stops[i]];
  }

  lemma OthersLowerRank(s: State, a: Action)
    requires Enabled(s, a)
    requires a.CreatorWait? || a.CreatorWake? || a.CreatorUnlock? || a.WorkerLock? || a.WorkerAnnounce?
          || a.WorkerDequeue? || a.WorkerRun? || a.WorkerCheck? || a.WorkerSleep? || a.WorkerWake?
          || a.WorkerLeave? || a.WorkerFree?
    ensures Rank(Do(s, a)) < Rank(s)
  {
  }

  lemma StepLowersRank(s: State, a: Action)
    requires Enabled(s, a)
    ensures Rank(Do(s, a)) < Rank(s)
  {
    match a
    case WorkerNotify => if SubmitAt(s, s.worker.job, Waiting) { SubmitsAfterMove(s.submits, s.worker.job, Waking); }
    case SubmitCall(i) => SubmitLowersRank(s, i, a);
    case SubmitLock(i) => SubmitLowersRank(s, i, a);
    case SubmitEnqueue(i) => SubmitLowersRank(s, i, a);
    case SubmitSignal(i, _) => SubmitLowersRank(s, i, a);
    case SubmitWait(i) => SubmitLowersRank(s, i, a);
    case SubmitWake(i) => SubmitLowersRank(s, i, a);
    case SubmitUnlock(i) => SubmitLowersRank(s, i, a);
    case StopCall(i) => StopLowersRank(s, i, a);
    case StopLock(i) => StopLowersRank(s, i, a);
    case StopSet(i) => StopLowersRank(s, i, a);
    case StopSignal(i, _) => StopLowersRank(s, i, a);
    case StopUnlock(i) => StopLowersRank(s, i, a);
    case _ => OthersLowerRank(s, a);
  }

  /** No run goes on forever: its length is bounded by the number of calls. */
  lemma {:induction false} RunsEnd(s: State, run: seq<Action>)
    requires IsRun(s, run)
    ensures |run| + Rank(After(s, run)) <= Rank(s)
    decreases |run|
  {
    if run != [] {
      StepLowersRank(s, run[0]);
      RunsEnd(Do(s, run[0]), run[1..]);
    }
  }

  ghost predicate Stuck(s: State) { forall a :: !Enabled(s, a) }

  /**
   There is no deadlock: while the worker has not given the queue up, a state
   in which nobody can move is one in which every call has returned.
   */
  lemma StuckMeansDone(s: State)
    requires Inv(s) && Stuck(s) && s.worker != Freed
    ensures s.worker == Asleep && s.creator == Created && s.queue == [] && !s.shutdown
    ensures forall i :: 0 <= i < |s.submits| ==> s.submits[i] == Returned
    ensures forall i :: 0 <= i < |s.stops| ==> s.stops[i] == StopDone
  {
    hide Inv, Stuck;
    WorkerIsAsleep(s);
    forall i | 0 <= i < |s.submits| ensures s.submits[i] == Returned { SubmitHasReturned(s, i); }
    forall i | 0 <= i < |s.stops| ensures s.stops[i] == StopDone { StopHasReturned(s, i); }
  }

  lemma WorkerIsAsleep(s: State)
    requires Inv(s) && Stuck(s) && s.worker != Freed
    ensures s.owner == None && s.worker == Asleep && s.creator == Created && s.queue == [] && !s.shutdown
  {
    NobodyOwns(s);
    assert !Enabled(s, WorkerLock) && !Enabled(s, WorkerWake) && !Enabled(s, WorkerFree);
    assert s.worker == Asleep;
    assert !Enabled(s, CreatorWake);
  }

  lemma SubmitHasReturned(s: State, i: nat)
    requires Inv(s) && Stuck(s) && i < |s.submits|
    requires s.owner == None && s.worker == Asleep && s.creator == Created && s.queue == []
    ensures s.submits[i] == Returned
  {
    assert !Enabled(s, SubmitCall(i)) && !Enabled(s, SubmitLock(i)) && !Enabled(s, SubmitWake(i));
    assert !SubmitHolds(s.submits[i]);
    assert i in s.submitted ==> i in s.ran;
  }

  lemma StopHasReturned(s: State, i: nat)
    requires Inv(s) && Stuck(s) && i < |s.stops|
    requires s.owner == None && s.worker == Asleep && s.creator == Created
    ensures s.stops[i] == StopDone
  {
    assert !Enabled(s, StopCall(i)) && !Enabled(s, StopLock(i));
    assert !StopHolds(s.stops[i]);
  }

  /** A thread that holds the mutex can always take its next step. */
  lemma NobodyOwns(s: State)
    requires Mutex(s) && Stuck(s) && s.worker != Freed
    ensures s.owner == None
  {
    match s.owner
    case Some(Submitter(i)) => SubmitterMoves(s, i);
    case Some(Stopper(i)) => StopperMoves(s, i);
    case Some(Worker) => WorkerMoves(s);
    case Some(Creator) => CreatorMoves(s);
    case None =>
  }

  lemma CreatorMoves(s: State)
    requires CreatorHolds(s.creator)
    ensures !Stuck(s)
  {
    assert Enabled(s, CreatorWait) || Enabled(s, CreatorUnlock);
  }

  lemma WorkerMoves(s: State)
    requires WorkerHolds(s.worker)
    ensures !Stuck(s)
  {
    match s.worker
    case Announcing => assert Enabled(s, WorkerAnnounce(Waiters(s)));
    case Looping => assert Enabled(s, WorkerDequeue);
    case Running(_) => assert Enabled(s, WorkerRun);
    case Notifying(_) => assert Enabled(s, WorkerNotify);
    case Checking => assert Enabled(s, WorkerCheck);
    case AboutToSleep => assert Enabled(s, WorkerSleep);
    case Leaving => assert Enabled(s, WorkerLeave);
  }

  lemma SubmitterMoves(s: State, i: nat)
    requires i < |s.submits| && SubmitHolds(s.submits[i]) && s.worker != Freed
    ensures !Stuck(s)
  {
    match s.submits[i]
    case Enqueueing => assert Enabled(s, SubmitEnqueue(i));
    case Signalling => assert Enabled(s, SubmitSignal(i, Waiters(s)));
    case AboutToWait => assert Enabled(s, SubmitWait(i));
    case Unlocking => assert Enabled(s, SubmitUnlock(i));
  }

  lemma StopperMoves(s: State, i: nat)
    requires i < |s.stops| && StopHolds(s.stops[i]) && s.worker != Freed
    ensures !Stuck(s)
  {
    match s.stops[i]
    case Setting => assert Enabled(s, StopSet(i));
    case StopSignalling => assert Enabled(s, StopSignal(i, Waiters(s)));
    case StopUnlocking => assert Enabled(s, StopUnlock(i));
  }

  /** Without a shutdown every run that cannot be extended has answered every call. */
  lemma EveryCallReturns(submitCalls: nat, run: seq<Action>)
    requires IsRun(Init(submitCalls, 0), run) && Stuck(After(Init(submitCalls, 0), run))
    ensures var s := After(Init(submitCalls, 0), run);
            |s.submits| == submitCalls && forall i :: 0 <= i < submitCalls ==> s.submits[i] == Returned && i in s.ran
  {
    var s := After(Init(submitCalls, 0), run);
    InitInv(submitCalls, 0);
    RunsKeepInv(Init(submitCalls, 0), run);
    NoStopNoShutdown(Init(submitCalls, 0), run);
    StuckMeansDone(s);
  }

  lemma {:induction false} NoStopNoShutdown(s: State, run: seq<Action>)
    requires IsRun(s, run) && s.stops == [] && !s.shutdown
    ensures !After(s, run).shutdown && |After(s, run).submits| == |s.submits|
    ensures s.worker !in {Leaving, Gone, Freed} ==> After(s, run).worker !in {Leaving, Gone, Freed}
    decreases |run|
  {
    if run != [] { NoStopNoShutdown(Do(s, run[0]), run[1..]); }
  }

  // ----- giving the queue up -----------------------------------------------

  /** A call has begun, be it only to wait for the mutex, and has not returned. */
  predicate InProgress(pc: SubmitPc) { pc != NotCalled && pc != Returned }

  predicate StopInProgress(pc: StopPc) { pc != StopNotCalled && pc != StopDone }

  /**
   The worker frees the queue as it leaves, although a call it has just
   answered may still have to take the mutex: some run ends that way.
   */
  lemma FreeCanOvertakeACall() returns (s: State)
    ensures Reachable(s) && s.worker == Freed && SubmitAt(s, 0, Waking)
  {
    s := AnsweredBeforeShutdown();
    s := Then(s, WorkerDequeue);
    s := Then(s, WorkerRun);
    s := Then(s, WorkerNotify);
    s := Then(s, WorkerDequeue);
    s := Then(s, WorkerCheck);
    s := Then(s, WorkerLeave);
    s := Then(s, WorkerFree);
  }

  /** One call has queued its job and waits, a shutdown has come and gone, and the worker is up again. */
  lemma AnsweredBeforeShutdown() returns (s: State)
    ensures Reachable(s)
    ensures s == State(Some(Worker), true, [0], Created, Looping, [Waiting], [StopDone], [0], [])
  {
    s := StopAsked();
    assert Waiters(s) == {};
    s := Then(s, StopSignal(0, {}));
    s := Then(s, StopUnlock(0));
    s := Then(s, WorkerWake);
    assert s.stops == [StopDone];
  }

  lemma StopAsked() returns (s: State)
    ensures Reachable(s)
    ensures s == State(Some(Stopper(0)), true, [0], Created, WakingUp, [Waiting], [StopSignalling], [0], [])
  {
    s := JobQueued();
    s := Then(s, StopCall(0));
    s := Then(s, StopLock(0));
    s := Then(s, StopSet(0));
    assert s.stops == [StopSignalling];
  }

  lemma JobQueued() returns (s: State)
    ensures Reachable(s)
    ensures s == State(None, false, [0], Created, WakingUp, [Waiting], [StopNotCalled], [0], [])
  {
    s := WorkerSignalled();
    s := Then(s, SubmitWait(0));
    assert s.submits == [Waiting];
  }

  lemma WorkerSignalled() returns (s: State)
    ensures Reachable(s)
    ensures s == State(Some(Submitter(0)), false, [0], Created, WakingUp, [AboutToWait], [StopNotCalled], [0], [])
  {
    s := JobAppended();
    assert Waiters(s) == {Worker};
    s := Then(s, SubmitSignal(0, {Worker}));
    assert s.submits == [AboutToWait];
  }

  lemma JobAppended() returns (s: State)
    ensures Reachable(s)
    ensures s == State(Some(Submitter(0)), false, [0], Created, Asleep, [Signalling], [StopNotCalled], [0], [])
  {
    s := WorkerUp();
    s := Then(s, SubmitCall(0));
    s := Then(s, SubmitLock(0));
    s := Then(s, SubmitEnqueue(0));
    assert s.submits == [Signalling] && s.queue == [0];
  }

  lemma WorkerUp() returns (s: State)
    ensures Reachable(s)
    ensures s == State(None, false, [], Created, Asleep, [NotCalled], [StopNotCalled], [], [])
  {
    s := Announced();
    s := Then(s, WorkerDequeue);
    s := Then(s, WorkerCheck);
    s := Then(s, WorkerSleep);
    s := Then(s, CreatorWake);
    s := Then(s, CreatorUnlock);
  }

  lemma Announced() returns (s: State)
    ensures Reachable(s)
    ensures s == State(Some(Worker), false, [], CreatorWaking, Looping, [NotCalled], [StopNotCalled], [], [])
  {
    s := Init(1, 1);
    assert IsRun(s, []) && After(s, []) == s;
    assert Reachable(s);
    assert s.submits == [NotCalled] && s.stops == [StopNotCalled];
    s := Then(s, CreatorWait);
    s := Then(s, WorkerLock);
    assert Waiters(s) == {Creator};
    s := Then(s, WorkerAnnounce({Creator}));
  }

  lemma Then(s: State, a: Action) returns (t: State)
    requires Reachable(s) && Enabled(s, a)
    ensures t == Do(s, a) && Reachable(t)
  {
    t := Do(s, a);
    var m: nat, n: nat, run :| IsRun(Init(m, n), run) && After(Init(m, n), run) == s;
    ExtendRun(Init(m, n), run, a);
  }

  lemma {:induction false} ExtendRun(s: State, run: seq<Action>, a: Action)
    requires IsRun(s, run) && Enabled(After(s, run), a)
    ensures IsRun(s, run + [a]) && After(s, run + [a]) == Do(After(s, run), a)
    decreases |run|
  {
    if run != [] {
      assert (run + [a])[1..] == run[1..] + [a];
      ExtendRun(Do(s, run[0]), run[1..], a);
    }
  }

  // Freeing is safe exactly when no other call is in progress as shutdown is set.

  ghost predicate SubmitRunning(s: State) { exists i :: 0 <= i < |s.submits| && InProgress(s.submits[i]) }

  ghost predicate StopRunning(s: State) { exists i :: 0 <= i < |s.stops| && StopInProgress(s.stops[i]) }

  /** The worker has freed the queue under a call that still needs its mutex. */
  ghost predicate Overtaken(s: State) { s.worker == Freed && (SubmitRunning(s) || StopRunning(s)) }

  predicate HasLeft(s: State) { s.worker == Gone || s.worker == Freed }

  /** A call that is about to give the mutex back is safe from a worker that has yet to take it. */
  ghost predicate SubmitDoomed(s: State) {
    exists i :: 0 <= i < |s.submits| && InProgress(s.submits[i]) && (s.submits[i] != Unlocking || HasLeft(s))
  }

  ghost predicate StopDoomed(s: State) {
    exists i :: 0 <= i < |s.stops| && StopInProgress(s.stops[i]) && (!StopHolds(s.stops[i]) || HasLeft(s))
  }

  ghost predicate Doomed(s: State) { SubmitDoomed(s) || StopDoomed(s) }

  predicate BeginsCall(a: Action) { a.SubmitCall? || a.StopCall? }

  predicate NoNewCalls(run: seq<Action>) { forall k :: 0 <= k < |run| ==> !BeginsCall(run[k]) }

  /** A step that brings the release nearer: of the thread that holds the mutex, or else of the worker. */
  function Next(s: State): Action {
    if s.worker == Gone then WorkerFree
    else
      match s.owner
      case Some(Submitter(i)) =>
        if SubmitAt(s, i, Enqueueing) then SubmitEnqueue(i)
        else if SubmitAt(s, i, Signalling) then SubmitSignal(i, Waiters(s))
        else if SubmitAt(s, i, AboutToWait) then SubmitWait(i)
        else SubmitUnlock(i)
      case Some(Stopper(i)) =>
        if StopAt(s, i, Setting) then StopSet(i)
        else if StopAt(s, i, StopSignalling) then StopSignal(i, Waiters(s))
        else StopUnlock(i)
      case _ =>
        match s.worker
        case Looping => WorkerDequeue
        case Running(_) => WorkerRun
        case Notifying(_) => WorkerNotify
        case Checking => WorkerCheck
        case Leaving => WorkerLeave
        case _ => WorkerWake
  }

  lemma {:induction false} NextIsEnabled(s: State)
    requires Inv(s) && s.shutdown && s.worker != Freed
    ensures Enabled(s, Next(s)) && !BeginsCall(Next(s))
  {
  }

  lemma FreedIsOvertaken(s: State)
    requires Doomed(s) && s.worker == Freed
    ensures Overtaken(s)
  {
    if SubmitDoomed(s) {
      var i :| 0 <= i < |s.submits| && InProgress(s.submits[i]);
      assert SubmitRunning(s);
    } else {
      var i :| 0 <= i < |s.stops| && StopInProgress(s.stops[i]);
      assert StopRunning(s);
    }
  }

  lemma NextKeepsDoomed(s: State)
    requires Inv(s) && s.shutdown && s.worker != Freed && Enabled(s, Next(s)) && Doomed(s)
    ensures Do(s, Next(s)).shutdown && Doomed(Do(s, Next(s)))
  {
    if SubmitDoomed(s) { NextKeepsSubmitDoomed(s); } else { NextKeepsStopDoomed(s); }
  }

  lemma NextKeepsSubmitDoomed(s: State)
    requires Inv(s) && s.shutdown && s.worker != Freed && Enabled(s, Next(s)) && SubmitDoomed(s)
    ensures Do(s, Next(s)).shutdown && SubmitDoomed(Do(s, Next(s)))
  {
    var i :| 0 <= i < |s.submits| && InProgress(s.submits[i]) && (s.submits[i] != Unlocking || HasLeft(s));
    var t := Do(s, Next(s));
    assert 0 <= i < |t.submits| && InProgress(t.submits[i]);
  }

  lemma {:induction false} NextKeepsStopDoomed(s: State)
    requires Inv(s) && s.shutdown && s.worker != Freed && Enabled(s, Next(s)) && StopDoomed(s)
    ensures Do(s, Next(s)).shutdown && StopDoomed(Do(s, Next(s)))
  {
    var i :| 0 <= i < |s.stops| && StopInProgress(s.stops[i]) && (!StopHolds(s.stops[i]) || HasLeft(s));
    var t := Do(s, Next(s));
    assert 0 <= i < |t.stops| && StopInProgress(t.stops[i]);
  }

  lemma {:induction false} DoomedIsOvertaken(s: State) returns (run: seq<Action>)
    requires Inv(s) && s.shutdown && Doomed(s)
    ensures NoNewCalls(run) && IsRun(s, run) && Overtaken(After(s, run))
    decreases Rank(s)
  {
    hide Inv, Doomed, Overtaken, Next, Do, Enabled, Rank;
    run := [];
    if s.worker == Freed {
      FreedIsOvertaken(s);
    } else {
      NextIsEnabled(s);
      NextKeepsDoomed(s);
      StepKeepsInv(s, Next(s));
      StepLowersRank(s, Next(s));
      var rest := DoomedIsOvertaken(Do(s, Next(s)));
      run := [Next(s)] + rest;
      assert run[1..] == rest;
    }
  }

  lemma {:induction false} StepKeepsSubmitsSafe(s: State, a: Action)
    requires Inv(s) && s.shutdown && !SubmitDoomed(s) && Enabled(s, a) && !BeginsCall(a)
    ensures Do(s, a).shutdown && !SubmitDoomed(Do(s, a))
  {
  }

  lemma {:induction false} StepKeepsStopsSafe(s: State, a: Action)
    requires Inv(s) && s.shutdown && !StopDoomed(s) && Enabled(s, a) && !BeginsCall(a)
    ensures !StopDoomed(Do(s, a))
  {
  }

  lemma {:induction false} NotDoomedIsSafe(s: State, run: seq<Action>)
    requires Inv(s) && s.shutdown && !Doomed(s) && IsRun(s, run) && NoNewCalls(run)
    ensures !Overtaken(After(s, run))
    decreases |run|
  {
    if run != [] {
      StepKeepsInv(s, run[0]);
      StepKeepsSubmitsSafe(s, run[0]);
      StepKeepsStopsSafe(s, run[0]);
      NotDoomedIsSafe(Do(s, run[0]), run[1..]);
    }
  }

  /** Some submit call, or some shutdown call other than `j`, is in progress. */
  ghost predicate OthersInProgress(s: State, j: nat) {
    SubmitRunning(s) || exists k :: 0 <= k < |s.stops| && k != j && StopInProgress(s.stops[k])
  }

  /**
   Suppose no call begins once shutdown call `j` sets the flag.  The queue can
   then be freed under a call exactly when some other call is in progress at
   that moment, even if it only waits for the mutex, or the worker has already
   left on account of an earlier shutdown.
   */
  lemma FreeOvertakesExactlyCallsInProgress(s: State, j: nat)
    requires Reachable(s) && Enabled(s, StopSet(j))
    ensures (exists run :: NoNewCalls(run) && IsRun(Do(s, StopSet(j)), run) && Overtaken(After(Do(s, StopSet(j)), run)))
            <==> OthersInProgress(s, j) || HasLeft(s)
  {
    ReachableInv(s);
    StepKeepsInv(s, StopSet(j));
    var t := Do(s, StopSet(j));
    DoomedAsFlagIsSet(s, j);
    if OthersInProgress(s, j) || HasLeft(s) {
      var run := DoomedIsOvertaken(t);
    } else {
      forall run | NoNewCalls(run) && IsRun(t, run) ensures !Overtaken(After(t, run)) {
        NotDoomedIsSafe(t, run);
      }
    }
  }

  lemma {:induction false} DoomedAsFlagIsSet(s: State, j: nat)
    requires Inv(s) && Enabled(s, StopSet(j))
    ensures Doomed(Do(s, StopSet(j))) <==> OthersInProgress(s, j) || HasLeft(s)
  {
    var t := Do(s, StopSet(j));
    assert StopInProgress(t.stops[j]);
    if SubmitRunning(s) {
      var i :| 0 <= i < |s.submits| && InProgress(s.submits[i]);
      assert InProgress(t.submits[i]) && t.submits[i] != Unlocking;
    } else if OthersInProgress(s, j) {
      var k :| 0 <= k < |s.stops| && k != j && StopInProgress(s.stops[k]);
      assert StopInProgress(t.stops[k]) && !StopHolds(t.stops[k]);
    }
  }

  /** For the first shutdown of all the condition is on the other calls alone. */
  lemma FirstShutdownIsSafeExactlyWhenAlone(s: State, j: nat)
    requires Reachable(s) && Enabled(s, StopSet(j)) && !s.shutdown
    ensures (exists run :: NoNewCalls(run) && IsRun(Do(s, StopSet(j)), run) && Overtaken(After(Do(s, StopSet(j)), run)))
            <==> OthersInProgress(s, j)
  {
    ReachableInv(s);
    FreeOvertakesExactlyCallsInProgress(s, j);
  }

  // ----- the queue itself --------------------------------------------------

  class Item {
    const job: nat
    var next: Item?

    constructor (job: nat)
      ensures this.job == job
    {
      this.job := job;
      next := null;
    }
  }

  /**
   The intrusive list of workqueue.c:18-50.  The source's `tail` is the address
   of the last item's link, or of `head` itself; here it is that last item, or
   null.
   */
  class XworkQueue {
    var head: Item?
    var tail: Item?
    ghost var items: seq<Item>

    ghost predicate Valid()
      reads this, items
    {
      && (forall i, j :: 0 <= i < j < |items| ==> items[i] != items[j])
      && head == (if items == [] then null else items[0])
      && tail == (if items == [] then null else items[|items| - 1])
      && (forall i :: 0 <= i < |items| - 1 ==> items[i].next == items[i + 1])
      && (items != [] ==> items[|items| - 1].next == null)
    }

    constructor ()
      ensures Valid() && items == []
    {
      head, tail, items := null, null, [];
    }

    method Enqueue(entry: Item)
      requires Valid() && entry !in items
      modifies this, entry`next, tail
      ensures Valid() && items == old(items) + [entry]
    {
      entry.next := null;
      if tail == null {
        head := entry;
      } else {
        tail.next := entry;
      }
      tail := entry;
      items := items + [entry];
    }

    method Dequeue() returns (entry: Item?)
      requires Valid()
      modifies this
      ensures Valid()
      ensures old(items) == [] ==> entry == null && items == []
      ensures old(items) != [] ==> entry == old(items)[0] && items == old(items)[1..]
    {
      entry := head;
      if head != null {
        head := entry.next;
        if head == null { tail := null; }
        items := items[1..];
      }
    }
  }
}
