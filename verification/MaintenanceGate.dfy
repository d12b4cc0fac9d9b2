/** The maintenance gate over all interleavings of tasks. A step is everything one task does between
    two suspension points; the event loop may choose any enabled step. */
module MaintenanceGate {
  import opened Options

  // ----- State -----

  /** A future a task waits on. */
  datatype Future = Pending | Woken | Cancelled

  /** The two suspension points inside a window: disposing of the engine, and the body. */
  datatype Phase = Disposing | Body

  /** How a suspension inside a window ends. */
  datatype Exit = Returns | Raises | IsCancelled

  /** Where a task is suspended. A parked operation that has been woken remembers how many windows
      had begun by then. */
  datatype Task =
    | Idle
    | AwaitingLock(reason: string, lockFuture: Future)
    | InWindow(reason: string, phase: Phase)
    | Parked
    | Unparked(windowsAtWake: nat)
    | Operating

  /** An operation that started: whether it had to park, and whether a window was active. */
  datatype Start = Start(hadParked: bool, windowActive: bool)

  /** The module's globals, the tasks, and a history: how many windows have begun, how each one that
      ended did, and which operations have started. */
  datatype State = State(
    gateOpen: bool,
    reason: Option<string>,
    lockHeld: bool,
    engineExists: bool,
    lockQueue: seq<int>,
    tasks: map<int, Task>,
    windowsBegun: nat,
    exits: seq<Exit>,
    starts: seq<Start>)

  datatype Step =
    | OpenWindow(task: int, why: string)
    | WokenOpensWindow(task: int)
    | DisposalEnds(task: int, exit: Exit)
    | BodyEnds(task: int, exit: Exit)
    | CreateEngine
    | CancelLockWait(task: int)
    | CancelledLeaves(task: int)
    | BeginOperation(task: int)
    | UnparkedBegins(task: int)
    | CancelParked(task: int)
    | EndOperation(task: int)

  function TaskOf(s: State, t: int): Task {
    if t in s.tasks then s.tasks[t] else Idle
  }

  function WithTask(s: State, t: int, task: Task): State {
    s.(tasks := s.tasks[t := task])
  }

  predicate IsInWindow(s: State, t: int) {
    TaskOf(s, t).InWindow?
  }

  predicate InQueue(s: State, t: int) {
    t in s.lockQueue
  }

  ghost predicate WindowActive(s: State) {
    exists t :: IsInWindow(s, t)
  }

  ghost predicate Init(s: State) {
    s.gateOpen && s.reason == None && !s.lockHeld && !s.engineExists && s.lockQueue == [] && s.starts == []
    && s.windowsBegun == 0 && s.exits == [] && forall t :: TaskOf(s, t) == Idle
  }

  // ----- Pieces of the asyncio primitives -----

  /** The lock wakes the first waiter unless its future is already done. */
  function WakeFirst(s: State): (after: State)
    ensures after.starts == s.starts
  {
    if s.lockQueue == [] then s
    else
      var first := s.lockQueue[0];
      match TaskOf(s, first)
      case AwaitingLock(why, Pending) => WithTask(s, first, AwaitingLock(why, Woken))
      case _ => s
  }

  function Without(queue: seq<int>, t: int): seq<int> {
    if queue == [] then []
    else if queue[0] == t then queue[1..]
    else [queue[0]] + Without(queue[1..], t)
  }

  predicate AllCancelled(s: State) {
    forall i | 0 <= i < |s.lockQueue| ::
      match TaskOf(s, s.lockQueue[i]) case AwaitingLock(_, future) => future == Cancelled case _ => false
  }

  /** Taking the lock runs straight through to the disposal of the engine, or to the body of the
      window when there is no engine to dispose of. */
  function EnterWindow(s: State, t: int, why: string): State {
    var phase := if s.engineExists then Disposing else Body;
    WithTask(s, t, InWindow(why, phase)).(lockHeld := true, reason := Some(why), gateOpen := false,
                                          windowsBegun := s.windowsBegun + 1)
  }

  /** Opening the gate wakes every parked operation. */
  function OpenGate(s: State): State {
    s.(gateOpen := true,
       tasks := map t | t in s.tasks :: if s.tasks[t].Parked? then Unparked(s.windowsBegun) else s.tasks[t])
  }

  /** The task leaves the try block; the exit it leaves with is passed on to its caller. */
  function LeaveTry(s: State, t: int, exit: Exit): State {
    WithTask(s, t, Idle).(exits := s.exits + [exit])
  }

  /** The finally clause. */
  function RunFinally(s: State): State {
    OpenGate(s).(reason := None)
  }

  /** Leaving the block of the lock. */
  function ReleaseLock(s: State): State {
    WakeFirst(s.(lockHeld := false))
  }

  /** Every way out of the try block runs through the finally clause and out of the lock's block. */
  function ExitWindow(s: State, t: int, exit: Exit): (after: State)
    ensures after.starts == s.starts
  {
    ReleaseLock(RunFinally(LeaveTry(s, t, exit)))
  }

  /** The engine is forgotten only once it has been disposed of; otherwise the body is skipped. */
  function EndDisposal(s: State, t: int, exit: Exit): State
    requires TaskOf(s, t).InWindow?
  {
    if exit == Returns then WithTask(s, t, InWindow(TaskOf(s, t).reason, Body)).(engineExists := false)
    else ExitWindow(s, t, exit)
  }

  // ----- Steps -----

  ghost function StartOperation(s: State, t: int, hadParked: bool): State {
    WithTask(s, t, Operating).(starts := s.starts + [Start(hadParked, WindowActive(s))])
  }

  predicate Enabled(s: State, step: Step) {
    match step
    case OpenWindow(t, _) => TaskOf(s, t).Idle?
    case WokenOpensWindow(t) => TaskOf(s, t).AwaitingLock? && TaskOf(s, t).lockFuture == Woken
    case DisposalEnds(t, _) => TaskOf(s, t).InWindow? && TaskOf(s, t).phase == Disposing
    case BodyEnds(t, _) => TaskOf(s, t).InWindow? && TaskOf(s, t).phase == Body
    case CreateEngine => true
    case CancelLockWait(t) => TaskOf(s, t).AwaitingLock? && TaskOf(s, t).lockFuture == Pending
    case CancelledLeaves(t) => TaskOf(s, t).AwaitingLock? && TaskOf(s, t).lockFuture != Pending
    case BeginOperation(t) => TaskOf(s, t).Idle?
    case UnparkedBegins(t) => TaskOf(s, t).Unparked?
    case CancelParked(t) => TaskOf(s, t).Parked? || TaskOf(s, t).Unparked?
    case EndOperation(t) => TaskOf(s, t).Operating?
  }

  /** The state after a step. A woken waiter may also leave because it was cancelled after its future
      was done; any code may create the engine, whether or not a window is active. */
  ghost function After(s: State, step: Step): State
    requires Enabled(s, step)
  {
    match step
    case OpenWindow(t, why) =>
      if !s.lockHeld && AllCancelled(s) then EnterWindow(s, t, why)
      else WithTask(s, t, AwaitingLock(why, Pending)).(lockQueue := s.lockQueue + [t])
    case WokenOpensWindow(t) =>
      EnterWindow(s.(lockQueue := Without(s.lockQueue, t)), t, TaskOf(s, t).reason)
    case DisposalEnds(t, exit) => EndDisposal(s, t, exit)
    case BodyEnds(t, exit) => ExitWindow(s, t, exit)
    case CreateEngine => s.(engineExists := true)
    case CancelLockWait(t) =>
      WithTask(s, t, AwaitingLock(TaskOf(s, t).reason, Cancelled))
    case CancelledLeaves(t) =>
      var left := WithTask(s, t, Idle).(lockQueue := Without(s.lockQueue, t));
      if left.lockHeld then left else WakeFirst(left)
    case BeginOperation(t) =>
      if s.gateOpen then StartOperation(s, t, false) else WithTask(s, t, Parked)
    case UnparkedBegins(t) => StartOperation(s, t, true)
    case CancelParked(t) => WithTask(s, t, Idle)
    case EndOperation(t) => WithTask(s, t, Idle)
  }

  // ----- Invariant -----

  /** Gate closed, reason set, lock held and one active window all say the same, and every window
      that has begun is active or has ended once. */
  ghost predicate WindowAgrees(s: State) {
    && (s.lockHeld <==> WindowActive(s))
    && (s.gateOpen <==> !s.lockHeld)
    && (s.reason.Some? <==> s.lockHeld)
    && s.windowsBegun == |s.exits| + (if s.lockHeld then 1 else 0)
    && (forall t | IsInWindow(s, t) :: s.reason == Some(TaskOf(s, t).reason))
    && (forall t, u | IsInWindow(s, t) && IsInWindow(s, u) :: t == u)
  }

  /** An open gate leaves no operation parked. */
  ghost predicate NobodyLeftParked(s: State) {
    s.gateOpen ==> forall t :: !TaskOf(s, t).Parked?
  }

  ghost predicate Distinct(queue: seq<int>) {
    forall i, j | 0 <= i < j < |queue| :: queue[i] != queue[j]
  }

  /** The queue holds exactly the waiters. Only its head can have been woken, only while the lock is
      free, and a free lock never leaves a pending head: its wake-up is never lost. */
  ghost predicate QueueAgrees(s: State) {
    && Distinct(s.lockQueue)
    && (forall t :: InQueue(s, t) <==> TaskOf(s, t).AwaitingLock?)
    && (forall i | 0 <= i < |s.lockQueue| ::
          TaskOf(s, s.lockQueue[i]).AwaitingLock?
          && (TaskOf(s, s.lockQueue[i]).lockFuture == Woken ==> i == 0 && !s.lockHeld))
    && (!s.lockHeld && s.lockQueue != [] ==> TaskOf(s, s.lockQueue[0]).lockFuture != Pending)
  }

  /** Operations that did not park started with no window active. */
  ghost predicate StartsAgree(s: State) {
    && (forall i | 0 <= i < |s.starts| :: s.starts[i].windowActive ==> s.starts[i].hadParked)
    && (forall t | TaskOf(s, t).Unparked? :: TaskOf(s, t).windowsAtWake <= s.windowsBegun)
    && (forall t | TaskOf(s, t).Unparked? && WindowActive(s) :: TaskOf(s, t).windowsAtWake < s.windowsBegun)
  }

  ghost predicate Invariant(s: State) {
    WindowAgrees(s) && NobodyLeftParked(s) && QueueAgrees(s) && StartsAgree(s)
  }

  // ----- Every step keeps the invariant -----

  lemma DistinctFront(head: int, tail: seq<int>)
    requires Distinct(tail) && head !in tail
    ensures Distinct([head] + tail)
  {
  }

  lemma {:induction false} WithoutMembers(queue: seq<int>, t: int)
    requires Distinct(queue)
    ensures Distinct(Without(queue, t)) && |Without(queue, t)| <= |queue|
    ensures forall x :: x in Without(queue, t) <==> x in queue && x != t
    ensures queue != [] && queue[0] != t ==> Without(queue, t) != [] && Without(queue, t)[0] == queue[0]
  {
    if queue == [] {
    } else {
      var head, tail := queue[0], queue[1..];
      assert queue == [head] + tail;
      assert head !in tail by {
        assert forall j | 0 <= j < |tail| :: tail[j] == queue[j + 1];
      }
      if head != t {
        WithoutMembers(tail, t);
        DistinctFront(head, Without(tail, t));
      }
    }
  }

  /** Nothing about windows changes when only waiters change. */
  lemma SameWindows(s: State, after: State)
    requires WindowAgrees(s) && NobodyLeftParked(s) && StartsAgree(s)
    requires after.gateOpen == s.gateOpen && after.reason == s.reason && after.lockHeld == s.lockHeld
    requires after.windowsBegun == s.windowsBegun && after.exits == s.exits && after.starts == s.starts
    requires forall t :: TaskOf(after, t).InWindow? || TaskOf(s, t).InWindow? ==> TaskOf(after, t) == TaskOf(s, t)
    requires forall t :: TaskOf(after, t).Unparked? ==> TaskOf(after, t) == TaskOf(s, t)
    requires forall t :: TaskOf(after, t).Parked? ==> TaskOf(s, t).Parked? || !s.gateOpen
    ensures WindowAgrees(after) && NobodyLeftParked(after) && StartsAgree(after)
  {
    assert forall t :: IsInWindow(after, t) == IsInWindow(s, t);
    assert WindowActive(after) == WindowActive(s);
  }

  lemma EnterAgrees(s: State, t: int, why: string)
    requires WindowAgrees(s) && StartsAgree(s) && !s.lockHeld
    ensures var after := EnterWindow(s, t, why);
            WindowAgrees(after) && NobodyLeftParked(after) && StartsAgree(after)
  {
    var after := EnterWindow(s, t, why);
    assert IsInWindow(after, t);
    assert forall u | IsInWindow(after, u) && u != t :: IsInWindow(s, u);
    assert forall u | TaskOf(after, u).Unparked? :: TaskOf(after, u) == TaskOf(s, u);
  }

  /** Entering a window from a free lock whose waiters are all still waiting in vain. */
  lemma EnterKeeps(s: State, t: int, why: string)
    requires Invariant(s) && !s.lockHeld && !InQueue(s, t)
    requires AllCancelled(s)
    ensures Invariant(EnterWindow(s, t, why))
  {
    var after := EnterWindow(s, t, why);
    EnterAgrees(s, t, why);
    forall u ensures InQueue(after, u) <==> TaskOf(after, u).AwaitingLock? {
      assert InQueue(s, u) <==> TaskOf(s, u).AwaitingLock?;
    }
    forall i | 0 <= i < |after.lockQueue|
      ensures TaskOf(after, after.lockQueue[i]).AwaitingLock? && TaskOf(after, after.lockQueue[i]).lockFuture != Woken
    {
      assert InQueue(s, s.lockQueue[i]);
    }
  }

  lemma OpenWindowKeeps(s: State, t: int, why: string)
    requires Invariant(s) && TaskOf(s, t).Idle?
    ensures Invariant(After(s, OpenWindow(t, why)))
  {
    var after := After(s, OpenWindow(t, why));
    if !s.lockHeld && AllCancelled(s) {
      EnterKeeps(s, t, why);
    } else {
      assert t !in s.lockQueue by {
        assert !InQueue(s, t);
      }
      forall u ensures InQueue(after, u) <==> TaskOf(after, u).AwaitingLock? {
        assert InQueue(s, u) <==> TaskOf(s, u).AwaitingLock?;
      }
      SameWindows(s, after);
    }
  }

  lemma WokenOpensWindowKeeps(s: State, t: int)
    requires Invariant(s) && Enabled(s, WokenOpensWindow(t))
    ensures Invariant(After(s, WokenOpensWindow(t)))
  {
    var after := After(s, WokenOpensWindow(t));
    assert InQueue(s, t);
    var i :| 0 <= i < |s.lockQueue| && s.lockQueue[i] == t;
    assert i == 0 && !s.lockHeld;
    WithoutMembers(s.lockQueue, t);
    var left := s.(lockQueue := Without(s.lockQueue, t));
    SameWindows(s, left);
    EnterAgrees(left, t, TaskOf(s, t).reason);
    forall u ensures InQueue(after, u) <==> TaskOf(after, u).AwaitingLock? {
      assert InQueue(s, u) <==> TaskOf(s, u).AwaitingLock?;
    }
    forall j | 0 <= j < |after.lockQueue|
      ensures TaskOf(after, after.lockQueue[j]).AwaitingLock? && TaskOf(after, after.lockQueue[j]).lockFuture != Woken
    {
      assert after.lockQueue[j] == s.lockQueue[j + 1] && s.lockQueue[j + 1] != s.lockQueue[0];
    }
  }

  /** Waking the head of a free lock's queue restores the queue's agreement. */
  lemma WakeFirstKeeps(s: State)
    requires WindowAgrees(s) && NobodyLeftParked(s) && StartsAgree(s) && !s.lockHeld
    requires Distinct(s.lockQueue) && forall t :: InQueue(s, t) <==> TaskOf(s, t).AwaitingLock?
    requires forall i | 0 < i < |s.lockQueue| ::
               TaskOf(s, s.lockQueue[i]).AwaitingLock? && TaskOf(s, s.lockQueue[i]).lockFuture != Woken
    ensures Invariant(WakeFirst(s))
  {
    var after := WakeFirst(s);
    if s.lockQueue != [] {
      assert InQueue(s, s.lockQueue[0]);
      SameWindows(s, after);
      forall u ensures InQueue(after, u) <==> TaskOf(after, u).AwaitingLock? {
        assert InQueue(s, u) <==> TaskOf(s, u).AwaitingLock?;
      }
      forall i | 0 < i < |after.lockQueue|
        ensures TaskOf(after, after.lockQueue[i]) == TaskOf(s, s.lockQueue[i])
      {
        assert s.lockQueue[i] != s.lockQueue[0];
      }
    }
  }

  lemma ExitWindowKeeps(s: State, t: int, exit: Exit)
    requires Invariant(s) && TaskOf(s, t).InWindow?
    ensures Invariant(ExitWindow(s, t, exit))
  {
    var reopened := RunFinally(LeaveTry(s, t, exit)).(lockHeld := false);
    assert IsInWindow(s, t);
    assert s.lockHeld;
    forall u ensures TaskOf(reopened, u) ==
      if u == t then Idle else if TaskOf(s, u).Parked? then Unparked(s.windowsBegun) else TaskOf(s, u)
    {
    }
    assert forall u :: IsInWindow(reopened, u) ==> IsInWindow(s, u) && u != t;
    forall u ensures InQueue(reopened, u) <==> TaskOf(reopened, u).AwaitingLock? {
      assert InQueue(s, u) <==> TaskOf(s, u).AwaitingLock?;
    }
    WakeFirstKeeps(reopened);
  }

  lemma EndDisposalKeeps(s: State, t: int, exit: Exit)
    requires Invariant(s) && Enabled(s, DisposalEnds(t, exit))
    ensures Invariant(EndDisposal(s, t, exit))
  {
    if exit == Returns {
      var after := EndDisposal(s, t, exit);
      forall u ensures InQueue(after, u) <==> TaskOf(after, u).AwaitingLock? {
        assert InQueue(s, u) <==> TaskOf(s, u).AwaitingLock?;
      }
      assert forall u :: IsInWindow(after, u) == IsInWindow(s, u);
    } else {
      ExitWindowKeeps(s, t, exit);
    }
  }

  lemma CreateEngineKeeps(s: State)
    requires Invariant(s)
    ensures Invariant(After(s, CreateEngine))
  {
    var after := After(s, CreateEngine);
    assert forall u :: TaskOf(after, u) == TaskOf(s, u);
    forall u ensures InQueue(after, u) <==> TaskOf(after, u).AwaitingLock? {
      assert InQueue(s, u) <==> TaskOf(s, u).AwaitingLock?;
    }
    SameWindows(s, after);
  }

  lemma CancelLockWaitKeeps(s: State, t: int)
    requires Invariant(s) && Enabled(s, CancelLockWait(t))
    ensures Invariant(After(s, CancelLockWait(t)))
  {
    var after := After(s, CancelLockWait(t));
    SameWindows(s, after);
    forall u ensures InQueue(after, u) <==> TaskOf(after, u).AwaitingLock? {
      assert InQueue(s, u) <==> TaskOf(s, u).AwaitingLock?;
    }
  }

  lemma CancelledLeavesKeeps(s: State, t: int)
    requires Invariant(s) && Enabled(s, CancelledLeaves(t))
    ensures Invariant(After(s, CancelledLeaves(t)))
  {
    var left := WithTask(s, t, Idle).(lockQueue := Without(s.lockQueue, t));
    WithoutMembers(s.lockQueue, t);
    SameWindows(s, left);
    forall u ensures InQueue(left, u) <==> TaskOf(left, u).AwaitingLock? {
      assert InQueue(s, u) <==> TaskOf(s, u).AwaitingLock?;
    }
    forall j | 0 <= j < |left.lockQueue|
      ensures TaskOf(left, left.lockQueue[j]).AwaitingLock?
      ensures TaskOf(left, left.lockQueue[j]).lockFuture == Woken ==> j == 0 && !s.lockHeld
    {
      var u := left.lockQueue[j];
      assert u in left.lockQueue;
      var i :| 0 <= i < |s.lockQueue| && s.lockQueue[i] == u;
    }
    if !s.lockHeld {
      WakeFirstKeeps(left);
    }
  }

  /** Outside windows and the lock's queue, a task may become idle or operating, and may park while
      the gate is closed. */
  lemma TaskMoves(s: State, t: int, task: Task)
    requires Invariant(s) && !TaskOf(s, t).InWindow? && !TaskOf(s, t).AwaitingLock?
    requires task.Idle? || task.Operating? || (task.Parked? && !s.gateOpen)
    ensures Invariant(WithTask(s, t, task))
  {
    var after := WithTask(s, t, task);
    forall u ensures InQueue(after, u) <==> TaskOf(after, u).AwaitingLock? {
      assert InQueue(s, u) <==> TaskOf(s, u).AwaitingLock?;
    }
    assert forall i | 0 <= i < |s.lockQueue| :: s.lockQueue[i] != t by {
      assert !InQueue(s, t);
    }
    SameWindows(s, after);
  }

  lemma StartKeeps(s: State, start: Start)
    requires Invariant(s) && (start.windowActive ==> start.hadParked)
    ensures Invariant(s.(starts := s.starts + [start]))
  {
    var after := s.(starts := s.starts + [start]);
    assert forall u :: TaskOf(after, u) == TaskOf(s, u);
    assert forall u :: IsInWindow(after, u) == IsInWindow(s, u) && InQueue(after, u) == InQueue(s, u);
  }

  lemma StartOperationKeeps(s: State, t: int, hadParked: bool)
    requires Invariant(s) && !TaskOf(s, t).InWindow? && !TaskOf(s, t).AwaitingLock?
    requires s.gateOpen || hadParked
    ensures Invariant(StartOperation(s, t, hadParked))
  {
    TaskMoves(s, t, Operating);
    StartKeeps(WithTask(s, t, Operating), Start(hadParked, WindowActive(s)));
  }

  /** Every step of every task keeps the invariant. */
  lemma StepKeepsInvariant(s: State, step: Step)
    requires Invariant(s) && Enabled(s, step)
    ensures Invariant(After(s, step))
  {
    match step
    case OpenWindow(t, why) => OpenWindowKeeps(s, t, why);
    case WokenOpensWindow(t) => WokenOpensWindowKeeps(s, t);
    case DisposalEnds(t, exit) => EndDisposalKeeps(s, t, exit);
    case BodyEnds(t, exit) => ExitWindowKeeps(s, t, exit);
    case CreateEngine => CreateEngineKeeps(s);
    case CancelLockWait(t) => CancelLockWaitKeeps(s, t);
    case CancelledLeaves(t) => CancelledLeavesKeeps(s, t);
    case BeginOperation(t) =>
      if s.gateOpen {
        StartOperationKeeps(s, t, false);
      } else {
        TaskMoves(s, t, Parked);
      }
    case UnparkedBegins(t) => StartOperationKeeps(s, t, true);
    case CancelParked(t) => TaskMoves(s, t, Idle);
    case EndOperation(t) => TaskMoves(s, t, Idle);
  }

  // ----- How windows end -----

  /** The step takes its task out of a window: the body ends in any way, or the disposal fails. */
  predicate ExitsWindow(step: Step) {
    step.BodyEnds? || (step.DisposalEnds? && step.exit != Returns)
  }

  lemma StepsKeepLock(s: State, step: Step)
    requires Enabled(s, step) && !ExitsWindow(step)
    ensures s.lockHeld ==> After(s, step).lockHeld
  {
  }

  /** Exactly these steps end a window. Whatever they end with, they pass that on, reopen the gate,
      clear the reason, wake every parked operation, free the lock and wake its first waiter. */
  lemma EveryExitReopens(s: State, step: Step)
    requires Invariant(s) && Enabled(s, step)
    ensures ExitsWindow(step) <==> s.lockHeld && !After(s, step).lockHeld
    ensures ExitsWindow(step) ==>
              var after := After(s, step);
              && after.gateOpen && after.reason == None
              && after.exits == s.exits + [step.exit]
              && (forall t :: !IsInWindow(after, t))
              && (forall t | TaskOf(s, t).Parked? :: TaskOf(after, t) == Unparked(s.windowsBegun))
              && after.lockQueue == s.lockQueue
              && (s.lockQueue != [] && TaskOf(s, s.lockQueue[0]).lockFuture == Pending ==>
                    TaskOf(after, s.lockQueue[0]).lockFuture == Woken)
  {
    if ExitsWindow(step) {
      assert IsInWindow(s, step.task);
      StepKeepsInvariant(s, step);
      assert !WindowActive(After(s, step));
      if s.lockQueue != [] {
        assert InQueue(s, s.lockQueue[0]);
      }
    } else {
      StepsKeepLock(s, step);
    }
  }

  /** A body begins without an engine: it was disposed of, or there was none. */
  lemma BodyBeginsWithoutEngine(s: State, step: Step, t: int)
    requires Enabled(s, step)
    requires TaskOf(After(s, step), t).InWindow? && TaskOf(After(s, step), t).phase == Body
    requires !(TaskOf(s, t).InWindow? && TaskOf(s, t).phase == Body)
    ensures !After(s, step).engineExists
  {
  }

  // ----- Runs -----

  ghost predicate IsPath(states: seq<State>, steps: seq<Step>) {
    && |states| == |steps| + 1
    && forall i | 0 <= i < |steps| :: Enabled(states[i], steps[i]) && states[i + 1] == After(states[i], steps[i])
  }

  ghost predicate IsRun(states: seq<State>, steps: seq<Step>) {
    IsPath(states, steps) && Init(states[0])
  }

  /** At every suspension point of every run. */
  lemma {:induction false} RunKeepsInvariant(states: seq<State>, steps: seq<Step>, i: nat)
    requires IsRun(states, steps) && i < |states|
    ensures Invariant(states[i])
  {
    if i == 0 {
    } else {
      RunKeepsInvariant(states, steps, i - 1);
      StepKeepsInvariant(states[i - 1], steps[i - 1]);
    }
  }

  /** The task waits for the lock and has not been cancelled. */
  ghost predicate WantsLock(s: State, t: int) {
    InQueue(s, t) && TaskOf(s, t).AwaitingLock? && TaskOf(s, t).lockFuture != Cancelled
  }

  /** A cancelled head leaves the queue to the others, who still want the lock. */
  lemma CancelledHeadLeaves(s: State)
    requires Invariant(s) && !s.lockHeld && s.lockQueue != []
    requires TaskOf(s, s.lockQueue[0]).lockFuture == Cancelled
    ensures var step := CancelledLeaves(s.lockQueue[0]);
            && Enabled(s, step) && !After(s, step).lockHeld
            && |After(s, step).lockQueue| < |s.lockQueue|
            && forall t | WantsLock(s, t) :: WantsLock(After(s, step), t)
  {
    WithoutMembers(s.lockQueue, s.lockQueue[0]);
  }

  lemma PrependStep(s: State, step: Step, states: seq<State>, steps: seq<Step>)
    requires Enabled(s, step) && IsPath(states, steps) && states[0] == After(s, step)
    ensures IsPath([s] + states, [step] + steps)
  {
    var longer, more := [s] + states, [step] + steps;
    forall i | 0 <= i < |more| ensures Enabled(longer[i], more[i]) && longer[i + 1] == After(longer[i], more[i]) {
      assert i > 0 ==> longer[i] == states[i - 1] && more[i] == steps[i - 1] && longer[i + 1] == states[i];
    }
  }

  /** A waiter for the lock is never stranded: from every reachable state with the lock free, steps of
      the waiters alone lead on, and as long as one of them still wants the lock they lead into a
      window. */
  lemma {:induction false} LockIsHandedOn(s: State) returns (states: seq<State>, steps: seq<Step>)
    requires Invariant(s) && !s.lockHeld
    ensures IsPath(states, steps) && states[0] == s
    ensures forall i | 0 <= i < |steps| :: steps[i].WokenOpensWindow? || steps[i].CancelledLeaves?
    ensures (exists t :: WantsLock(s, t)) ==> WindowActive(states[|steps|])
    ensures WindowActive(states[|steps|]) || states[|steps|].lockQueue == []
    decreases |s.lockQueue|
  {
    if s.lockQueue == [] {
      states, steps := [s], [];
    } else {
      var head := s.lockQueue[0];
      assert InQueue(s, head);
      if TaskOf(s, head).lockFuture == Woken {
        var step := WokenOpensWindow(head);
        states, steps := [s, After(s, step)], [step];
        assert IsInWindow(After(s, step), head);
      } else {
        var step := CancelledLeaves(head);
        CancelledHeadLeaves(s);
        StepKeepsInvariant(s, step);
        states, steps := LockIsHandedOn(After(s, step));
        PrependStep(s, step, states, steps);
        states, steps := [s] + states, [step] + steps;
      }
    }
  }

  /** The operation a step starts, if it starts one. */
  ghost function StartOf(s: State, step: Step): Option<Start> {
    if step.BeginOperation? && s.gateOpen then Some(Start(false, WindowActive(s)))
    else if step.UnparkedBegins? then Some(Start(true, WindowActive(s)))
    else None
  }

  lemma StepStarts(s: State, step: Step)
    requires Enabled(s, step)
    ensures After(s, step).starts == s.starts + if StartOf(s, step).Some? then [StartOf(s, step).value] else []
  {
  }

  /** An operation that has been woken runs on while the gate is closed again. */
  predicate SkipsRecheck(s: State, step: Step) {
    step.UnparkedBegins? && !s.gateOpen
  }

  /** An operation starts inside a window exactly when it was woken and the gate is closed as it runs
      on, which the code does not check again. It was then woken before the window began. */
  lemma StartInsideWindow(s: State, step: Step)
    requires Invariant(s) && Enabled(s, step)
    ensures StartOf(s, step).Some? && StartOf(s, step).value.windowActive <==> SkipsRecheck(s, step)
    ensures SkipsRecheck(s, step) ==> TaskOf(s, step.task).windowsAtWake < s.windowsBegun
  {
  }

  ghost predicate StartedInsideWindow(s: State) {
    exists k :: 0 <= k < |s.starts| && s.starts[k].windowActive
  }

  lemma StepStartsInside(s: State, step: Step)
    requires Invariant(s) && Enabled(s, step)
    ensures StartedInsideWindow(After(s, step)) <==> StartedInsideWindow(s) || SkipsRecheck(s, step)
  {
    var before, after := s.starts, After(s, step).starts;
    StepStarts(s, step);
    StartInsideWindow(s, step);
    assert forall k | 0 <= k < |before| :: after[k] == before[k];
    if StartOf(s, step).Some? {
      assert after[|before|] == StartOf(s, step).value;
    }
  }

  /** A run has started an operation inside a window exactly when one of its steps so far let a woken
      operation run on while the gate was closed. */
  lemma {:induction false} RunStartsInsideWindow(states: seq<State>, steps: seq<Step>, n: nat)
    requires IsRun(states, steps) && n < |states|
    ensures StartedInsideWindow(states[n]) <==> exists i :: 0 <= i < n && SkipsRecheck(states[i], steps[i])
  {
    if n == 0 {
      assert states[0].starts == [];
    } else {
      RunStartsInsideWindow(states, steps, n - 1);
      RunKeepsInvariant(states, steps, n - 1);
      StepStartsInside(states[n - 1], steps[n - 1]);
    }
  }

  /** The gate does not keep every operation out: one that was woken by the end of a window starts
      inside the next window when that begins first. */
  lemma WokenOperationCanStartInsideWindow(idle: State)
    returns (states: seq<State>, steps: seq<Step>)
    requires Init(idle)
    ensures IsRun(states, steps)
    ensures var last := states[|states| - 1];
            WindowActive(last) && last.starts == [Start(true, true)]
  {
    steps := [OpenWindow(1, "backup"), BeginOperation(2), BodyEnds(1, Returns), OpenWindow(3, "optimize"),
              UnparkedBegins(2)];
    assert TaskOf(idle, 1) == TaskOf(idle, 2) == TaskOf(idle, 3) == Idle;
    var a := After(idle, steps[0]);
    assert IsInWindow(a, 1);
    var b := After(a, steps[1]);
    var c := After(b, steps[2]);
    var d := After(c, steps[3]);
    assert IsInWindow(d, 3);
    var e := After(d, steps[4]);
    assert IsInWindow(e, 3);
    states := [idle, a, b, c, d, e];
  }
}
