/**
 * The round-robin scheduler.  Every call is one atomic step; a context switch is the change of
 * `current`.  Tasks beyond the created ones are the unused slots.
 */
module Scheduler {
  import PendingSignals
  import Signals

  datatype TaskState = Ready | Running | Blocked | Finished

  datatype Task = Task(state: TaskState, waitFor: int, parent: int, pending: bv32)

  datatype State = State(tasks: seq<Task>, current: nat)

  /** Task `i` places after `c` in a table of `n`. */
  function Place(c: nat, i: nat, n: nat): nat {
    if c + i < n then c + i else c + i - n
  }

  lemma PlaceIsMod(c: nat, i: nat, n: nat)
    requires c < n && i <= n
    ensures Place(c, i, n) == (c + i) % n && Place(c, i, n) < n
  {
    if c + i < n {
      assert (c + i) % n == c + i;
    } else {
      assert c + i == n + (c + i - n) && c + i - n < n;
    }
  }

  /** How far `t` is from `c`, going round: from 1 to `n`. */
  function Distance(c: nat, t: nat, n: nat): (d: nat)
    requires c < n && t < n
    ensures 1 <= d <= n && Place(c, d, n) == t
  {
    if t > c then t - c else t + n - c
  }

  lemma DistanceIsMod(c: nat, t: nat, n: nat)
    requires c < n && t < n && c != t
    ensures Distance(c, t, n) == (t - c) % n
  {
    if t < c {
      assert t - c == -1 * n + (t + n - c);
    }
  }

  /** `r` is what the scheduler is to run next: the nearest READY task, else the current one, else task 0. */
  ghost predicate IsNext(s: State, r: nat)
    requires s.current < |s.tasks|
  {
    && r < |s.tasks|
    && if exists t | 0 <= t < |s.tasks| :: s.tasks[t].state == Ready then
        && s.tasks[r].state == Ready
        && forall t | 0 <= t < |s.tasks| && s.tasks[t].state == Ready ::
           Distance(s.current, r, |s.tasks|) <= Distance(s.current, t, |s.tasks|)
      else r == if s.tasks[s.current].state == Running then s.current else 0
  }

  /** The scan of `pick_next` from its round `i` on. */
  function Scan(s: State, i: nat): nat
    requires s.current < |s.tasks| && 1 <= i
    decreases |s.tasks| + 1 - i
  {
    if i > |s.tasks| then (if s.tasks[s.current].state == Running then s.current else 0)
    else
      var t := Place(s.current, i, |s.tasks|);
      if s.tasks[t].state == Ready then t else Scan(s, i + 1)
  }

  lemma {:induction false} ScanFinds(s: State, i: nat)
    requires s.current < |s.tasks| && 1 <= i <= |s.tasks| + 1
    requires forall t | 0 <= t < |s.tasks| && s.tasks[t].state == Ready :: i <= Distance(s.current, t, |s.tasks|)
    ensures IsNext(s, Scan(s, i))
    decreases |s.tasks| + 1 - i
  {
    if i <= |s.tasks| && s.tasks[Place(s.current, i, |s.tasks|)].state != Ready {
      ScanFinds(s, i + 1);
    }
  }

  lemma OneNext(s: State, a: nat, b: nat)
    requires s.current < |s.tasks| && IsNext(s, a) && IsNext(s, b)
    ensures a == b
  {
  }

  function Next(s: State): (r: nat)
    requires s.current < |s.tasks|
    ensures IsNext(s, r)
  {
    ScanFinds(s, 1);
    Scan(s, 1)
  }

  /** `switch_to(pick_next())`. */
  function Reschedule(s: State): State
    requires s.current < |s.tasks|
  {
    var next := Next(s);
    if next == s.current then s
    else
      var tasks := if s.tasks[s.current].state == Running then
        s.tasks[s.current := s.tasks[s.current].(state := Ready)] else s.tasks;
      State(tasks[next := tasks[next].(state := Running)], next)
  }

  /** `signal_send`: a blocked task wakes. */
  function Sent(tasks: seq<Task>, tid: int, sig: int): seq<Task> {
    if sig < 1 || sig >= PendingSignals.NSIG || tid < 0 || tid >= |tasks| || tasks[tid].state == Finished then tasks
    else
      var t := tasks[tid].(pending := PendingSignals.Joined(tasks[tid].pending, PendingSignals.Mask(sig)));
      tasks[tid := if t.state == Blocked then t.(state := Ready, waitFor := -1) else t]
  }

  /** There is such a signal, and such a task that has not finished. */
  predicate Accepts(tasks: seq<Task>, tid: int, sig: int) {
    1 <= sig < PendingSignals.NSIG && 0 <= tid < |tasks| && tasks[tid].state != Finished
  }

  function WokenTask(t: Task, me: nat): Task {
    if t.state == Blocked && t.waitFor == me then t.(state := Ready, waitFor := -1) else t
  }

  /** Everyone who waits for `me` wakes. */
  function Woken(tasks: seq<Task>, me: nat): seq<Task> {
    seq(|tasks|, t requires 0 <= t < |tasks| => WokenTask(tasks[t], me))
  }

  /** The table when the current task has exited, before the scheduler is called. */
  function Left(s: State): seq<Task>
    requires s.current < |s.tasks|
  {
    var finished := s.tasks[s.current := s.tasks[s.current].(state := Finished)];
    var told := if s.tasks[s.current].parent >= 0 then Sent(finished, s.tasks[s.current].parent, Signals.SIGCHLD)
      else finished;
    Woken(told, s.current)
  }

  predicate Waits(s: State, tid: int) {
    0 <= tid < |s.tasks| && s.tasks[tid].state != Finished
  }

  /** The table when the current task has blocked on `tid`. */
  function Waiting(s: State, tid: int): seq<Task>
    requires s.current < |s.tasks|
  {
    s.tasks[s.current := s.tasks[s.current].(state := Blocked, waitFor := tid)]
  }

  /** The scheduler's calls; a creation may fail for want of memory, and knows its parent if it is a fork. */
  datatype Event = Tick | Yield | Exit | Wait(tid: int) | Send(tid: int, sig: int) | Create(fork: bool, ok: bool)

  function Created(s: State, fork: bool): Task {
    Task(Ready, -1, if fork then s.current else -1, 0)
  }

  function Step(s: State, e: Event, maxTasks: nat): State
    requires s.current < |s.tasks|
  {
    match e
    case Tick => Reschedule(s)
    case Yield => Reschedule(s)
    case Exit => Reschedule(s.(tasks := Left(s)))
    case Wait(tid) => if Waits(s, tid) then Reschedule(s.(tasks := Waiting(s, tid))) else s
    case Send(tid, sig) => s.(tasks := Sent(s.tasks, tid, sig))
    case Create(fork, ok) => if ok && |s.tasks| < maxTasks then s.(tasks := s.tasks + [Created(s, fork)]) else s
  }

  /** Exactly one task runs, the current one; a blocked task waits for one that has not finished; nobody else waits. */
  ghost predicate Inv(s: State) {
    && s.current < |s.tasks|
    && (forall t | 0 <= t < |s.tasks| :: s.tasks[t].state == Running <==> t == s.current)
    && (forall t | 0 <= t < |s.tasks| :: WaitOk(s.tasks, t))
  }

  ghost predicate WaitOk(tasks: seq<Task>, t: nat)
    requires t < |tasks|
  {
    if tasks[t].state == Blocked then 0 <= tasks[t].waitFor < |tasks| &&
        tasks[tasks[t].waitFor].state != Finished else tasks[t].waitFor == -1
  }

  /** No task that has finished does anything again. */
  ghost predicate Absorbed(s: State, s': State) {
    |s.tasks| <= |s'.tasks| && forall t | 0 <= t < |s.tasks| && s.tasks[t].state == Finished ::
        s'.tasks[t].state == Finished
  }

  ghost predicate AnyReady(tasks: seq<Task>) {
    exists t | 0 <= t < |tasks| :: tasks[t].state == Ready
  }

  /** A step that takes the current task off the processor. */
  ghost predicate Leaves(s: State, e: Event) {
    e.Exit? || (e.Wait? && Waits(s, e.tid))
  }

  /** There is somebody to run: READY now, or woken by the exit. */
  ghost predicate Runnable(s: State, e: Event)
    requires s.current < |s.tasks|
  {
    exists t | 0 <= t < |s.tasks| && t != s.current ::
      || s.tasks[t].state == Ready
      || (e.Exit? && s.tasks[t].state == Blocked && (s.tasks[t].waitFor == s.current || t == s.tasks[s.current].parent))
  }

  /** What rescheduling needs: like `Inv`, but the current task may have stopped. */
  ghost predicate Stopped(s: State) {
    && s.current < |s.tasks|
    && (s.tasks[s.current].state == Finished || s.tasks[s.current].state == Blocked)
    && (forall t | 0 <= t < |s.tasks| :: s.tasks[t].state != Running)
    && (forall t | 0 <= t < |s.tasks| :: WaitOk(s.tasks, t))
  }

  /** Tasks that trade READY for RUNNING or back wait as they did. */
  lemma WaitsKept(tasks: seq<Task>, tasks': seq<Task>)
    requires |tasks'| == |tasks| && forall t | 0 <= t < |tasks| :: WaitOk(tasks, t)
    requires forall t | 0 <= t < |tasks| :: tasks'[t].waitFor == tasks[t].waitFor
    requires forall t | 0 <= t < |tasks| ::
      (tasks'[t].state == Blocked <==> tasks[t].state == Blocked) &&
          (tasks'[t].state == Finished <==> tasks[t].state == Finished)
    ensures forall t | 0 <= t < |tasks| :: WaitOk(tasks', t)
  {
    forall t | 0 <= t < |tasks|
      ensures WaitOk(tasks', t)
    {
      assert WaitOk(tasks, t);
    }
  }

  lemma RescheduleRunning(s: State)
    requires Inv(s)
    ensures Inv(Reschedule(s)) && Absorbed(s, Reschedule(s)) && |Reschedule(s).tasks| == |s.tasks|
    ensures forall t | 0 <= t < |s.tasks| && s.tasks[t].state == Ready :: Closer(s, Reschedule(s), t)
  {
    hide WaitOk, Distance;
    WaitsKept(s.tasks, Reschedule(s).tasks);
    forall t | 0 <= t < |s.tasks| && s.tasks[t].state == Ready
      ensures Closer(s, Reschedule(s), t)
    {
      Nearer(s.current, Next(s), t, |s.tasks|);
    }
  }

  /** Where the scheduler goes when the current task has stopped: right exactly if some task is READY. */
  lemma RescheduleStopped(s: State)
    requires Stopped(s)
    ensures Inv(Reschedule(s)) && Absorbed(s, Reschedule(s)) <==> AnyReady(s.tasks)
    ensures |Reschedule(s).tasks| == |s.tasks|
    ensures forall t | 0 <= t < |s.tasks| && s.tasks[t].state == Ready :: Closer(s, Reschedule(s), t)
  {
    hide Distance;
    var s' := Reschedule(s);
    if AnyReady(s.tasks) {
      WaitsKept(s.tasks, s'.tasks);
      forall t | 0 <= t < |s.tasks| && s.tasks[t].state == Ready
        ensures Closer(s, s', t)
      {
        Nearer(s.current, Next(s), t, |s.tasks|);
      }
    } else {
      assert WaitOk(s.tasks, 0);
      assert Inv(s') ==> WaitOk(s'.tasks, 0);
    }
  }

  /** Going round, what is no nearer than `r` is nearer from `r`. */
  lemma Nearer(c: nat, r: nat, t: nat, n: nat)
    requires c < n && r < n && t < n && Distance(c, r, n) <= Distance(c, t, n)
    ensures r == t || Distance(r, t, n) < Distance(c, t, n)
  {
  }

  /** A READY task is now running, or still READY with fewer before it. */
  ghost predicate Closer(s: State, s': State, t: nat)
    requires s.current < |s.tasks| && t < |s.tasks|
  {
    && s'.current < |s'.tasks| == |s.tasks|
    && (s'.current == t || (s'.tasks[t].state == Ready &&
       Distance(s'.current, t, |s.tasks|) < Distance(s.current, t, |s.tasks|)))
  }

  /** What an exit does to each other task. */
  lemma LeftAt(s: State, t: nat)
    requires Inv(s) && t < |s.tasks|
    ensures |Left(s)| == |s.tasks|
    ensures t == s.current ==> Left(s)[t].state == Finished && Left(s)[t].waitFor == -1
    ensures t != s.current ==>
      var wakes := s.tasks[t].state == Blocked && (s.tasks[t].waitFor == s.current || t == s.tasks[s.current].parent);
      && Left(s)[t].state == (if wakes then Ready else s.tasks[t].state)
      && Left(s)[t].waitFor == (if wakes then -1 else s.tasks[t].waitFor)
  {
    assert WaitOk(s.tasks, s.current);
    hide WaitOk;
  }

  lemma LeftStopped(s: State)
    requires Inv(s)
    ensures Stopped(s.(tasks := Left(s))) && |Left(s)| == |s.tasks|
    ensures AnyReady(Left(s)) <==> Runnable(s, Exit)
    ensures forall t | 0 <= t < |s.tasks| && s.tasks[t].state == Ready :: Left(s)[t].state == Ready
    ensures forall t | 0 <= t < |s.tasks| && s.tasks[t].state == Finished :: Left(s)[t].state == Finished
    ensures forall t | 0 <= t < |s.tasks| && Left(s)[t].state == Finished ::
      t == s.current || s.tasks[t].state == Finished
    ensures forall t | 0 <= t < |s.tasks| && s.tasks[t].state == Blocked && s.tasks[t].waitFor == s.current ::
      Left(s)[t].state == Ready
  {
    hide Left;
    LeftAt(s, s.current);
    forall t | 0 <= t < |s.tasks|
      ensures WaitOk(Left(s), t) && Left(s)[t].state != Running
      ensures t != s.current ==>
        var wakes := s.tasks[t].state == Blocked && (s.tasks[t].waitFor == s.current || t == s.tasks[s.current].parent);
        Left(s)[t].state == (if wakes then Ready else s.tasks[t].state)
    {
      LeftAt(s, t);
      assert WaitOk(s.tasks, t);
      if s.tasks[t].state == Blocked {
        LeftAt(s, s.tasks[t].waitFor);
      }
    }
    if Runnable(s, Exit) {
      var t :| 0 <= t < |s.tasks| && t != s.current &&
        (s.tasks[t].state == Ready || (s.tasks[t].state == Blocked &&
            (s.tasks[t].waitFor == s.current || t == s.tasks[s.current].parent)));
      assert Left(s)[t].state == Ready;
    }
  }

  lemma WaitingStopped(s: State, tid: int)
    requires Inv(s) && Waits(s, tid)
    ensures Stopped(s.(tasks := Waiting(s, tid))) && |Waiting(s, tid)| == |s.tasks|
    ensures AnyReady(Waiting(s, tid)) <==> Runnable(s, Wait(tid))
    ensures forall t | 0 <= t < |s.tasks| && t != s.current :: Waiting(s, tid)[t] == s.tasks[t]
  {
    forall t | 0 <= t < |s.tasks|
      ensures WaitOk(Waiting(s, tid), t)
    {
      assert WaitOk(s.tasks, t);
    }
    if Runnable(s, Wait(tid)) {
      var t :| 0 <= t < |s.tasks| && t != s.current && s.tasks[t].state == Ready;
      assert Waiting(s, tid)[t].state == Ready;
    }
    if AnyReady(Waiting(s, tid)) {
      var t :| 0 <= t < |s.tasks| && Waiting(s, tid)[t].state == Ready;
      assert t != s.current && s.tasks[t].state == Ready;
    }
  }

  lemma SentOk(s: State, tid: int, sig: int)
    requires Inv(s)
    ensures Inv(s.(tasks := Sent(s.tasks, tid, sig))) && |Sent(s.tasks, tid, sig)| == |s.tasks|
    ensures forall t | 0 <= t < |s.tasks| && s.tasks[t].state != Blocked ::
      Sent(s.tasks, tid, sig)[t].state == s.tasks[t].state
  {
    var tasks' := Sent(s.tasks, tid, sig);
    forall t | 0 <= t < |s.tasks|
      ensures WaitOk(tasks', t)
    {
      assert WaitOk(s.tasks, t);
    }
  }

  /**
   * Every call keeps the invariant and never revives a finished task, exactly if somebody can run when the
   * current task stops.
   */
  lemma StepSafe(s: State, e: Event, maxTasks: nat)
    requires Inv(s)
    ensures Inv(Step(s, e, maxTasks)) && Absorbed(s, Step(s, e, maxTasks)) <==> (Leaves(s, e) ==> Runnable(s, e))
    ensures |s.tasks| <= |Step(s, e, maxTasks).tasks| <= if |s.tasks| < maxTasks then maxTasks else |s.tasks|
  {
    hide Reschedule, Stopped, Left, Sent, Waiting, Runnable;
    match e
    case Exit =>
      LeftStopped(s);
      StopSafe(s, Left(s));
    case Wait(tid) =>
      if Waits(s, tid) {
        WaitingStopped(s, tid);
        assert forall t | 0 <= t < |s.tasks| && s.tasks[t].state == Finished :: Waiting(s, tid)[t].state == Finished;
        StopSafe(s, Waiting(s, tid));
      }
    case Send(tid, sig) => SentOk(s, tid, sig);
    case Create(fork, ok) => CreatedOk(s, fork);
    case _ => RescheduleRunning(s);
  }

  lemma StopSafe(s: State, tasks: seq<Task>)
    requires Inv(s) && |tasks| == |s.tasks| && Stopped(s.(tasks := tasks))
    requires forall t | 0 <= t < |s.tasks| && s.tasks[t].state == Finished :: tasks[t].state == Finished
    requires forall t | 0 <= t < |s.tasks| && tasks[t].state == Finished ::
      t == s.current || s.tasks[t].state == Finished
    ensures
      var s' := Reschedule(s.(tasks := tasks));
      (Inv(s') && Absorbed(s, s') <==> AnyReady(tasks)) && |s'.tasks| == |s.tasks|
  {
    RescheduleStopped(s.(tasks := tasks));
  }

  lemma CreatedOk(s: State, fork: bool)
    requires Inv(s)
    ensures Inv(s.(tasks := s.tasks + [Created(s, fork)]))
  {
    forall t | 0 <= t < |s.tasks| + 1
      ensures WaitOk(s.tasks + [Created(s, fork)], t)
    {
      assert t < |s.tasks| ==> WaitOk(s.tasks, t);
    }
  }

  /** The calls that hand over the processor. */
  ghost predicate Schedules(s: State, e: Event) {
    e.Tick? || e.Yield? || Leaves(s, e)
  }

  /** A READY task stays READY until it is chosen, and each hand-over brings it nearer. */
  lemma ReadyMoves(s: State, e: Event, maxTasks: nat, t: nat)
    requires Inv(s) && t < |s.tasks| && s.tasks[t].state == Ready
    ensures Schedules(s, e) ==> Closer(s, Step(s, e, maxTasks), t)
    ensures !Schedules(s, e) ==>
      && Step(s, e, maxTasks).current == s.current && t < |Step(s, e, maxTasks).tasks|
      && Step(s, e, maxTasks).tasks[t].state == Ready
      && |Step(s, e, maxTasks).tasks| == |s.tasks| + (if e.Create? && e.ok && |s.tasks| < maxTasks then 1 else 0)
  {
    hide Reschedule, Stopped, Left, Sent, Waiting, WaitOk, Distance;
    match e
    case Exit =>
      LeftStopped(s);
      RescheduleStopped(s.(tasks := Left(s)));
    case Wait(tid) =>
      if Waits(s, tid) {
        WaitingStopped(s, tid);
        RescheduleStopped(s.(tasks := Waiting(s, tid)));
      }
    case Send(tid, sig) => SentOk(s, tid, sig);
    case Create(fork, ok) =>
    case _ => RescheduleRunning(s);
  }

  /** No wakeup is lost: when a task exits, whoever waits for it can run again. */
  lemma ExitWakes(s: State, maxTasks: nat, t: nat)
    requires Inv(s) && t < |s.tasks| && s.tasks[t].state == Blocked && s.tasks[t].waitFor == s.current
    ensures Inv(Step(s, Exit, maxTasks)) && Absorbed(s, Step(s, Exit, maxTasks))
    ensures |Step(s, Exit, maxTasks).tasks| == |s.tasks|
    ensures Step(s, Exit, maxTasks).tasks[t].state == Ready || Step(s, Exit, maxTasks).current == t
    ensures Step(s, Exit, maxTasks).tasks[s.current].state == Finished
  {
    hide Left, WaitOk, Distance;
    assert t != s.current;
    StepSafe(s, Exit, maxTasks);
    LeftStopped(s);
    LeftAt(s, s.current);
    assert Left(s)[t].state == Ready && Left(s)[s.current].state == Finished;
    RescheduleStopped(s.(tasks := Left(s)));
  }

  ghost function Run(s: State, events: seq<Event>, maxTasks: nat): State
    requires s.current < |s.tasks|
    decreases events
  {
    if events == [] then s
    else
      var s' := Step(s, events[0], maxTasks);
      if s'.current < |s'.tasks| then Run(s', events[1..], maxTasks) else s
  }

  /** Whenever the current task stops, somebody can run. */
  ghost predicate Allowed(s: State, events: seq<Event>, maxTasks: nat)
    requires s.current < |s.tasks|
    decreases events
  {
    events == [] ||
    (&& (Leaves(s, events[0]) ==> Runnable(s, events[0]))
     && var s' := Step(s, events[0], maxTasks);
        s'.current < |s'.tasks| && Allowed(s', events[1..], maxTasks))
  }

  /** Whoever has finished stays finished, and so never is the current task again. */
  lemma {:induction false} RunSafe(s: State, events: seq<Event>, maxTasks: nat)
    requires Inv(s) && Allowed(s, events, maxTasks)
    ensures Inv(Run(s, events, maxTasks)) && Absorbed(s, Run(s, events, maxTasks))
    ensures forall t | 0 <= t < |s.tasks| && s.tasks[t].state == Finished :: Run(s, events, maxTasks).current != t
    decreases events
  {
    hide Step, WaitOk;
    if events != [] {
      StepSafe(s, events[0], maxTasks);
      RunSafe(Step(s, events[0], maxTasks), events[1..], maxTasks);
    }
  }

  /** Task 0 neither waits nor exits. */
  ghost predicate IdleStays(s: State, events: seq<Event>, maxTasks: nat)
    requires s.current < |s.tasks|
    decreases events
  {
    events == [] ||
    (&& (Leaves(s, events[0]) ==> s.current != 0)
     && var s' := Step(s, events[0], maxTasks);
        s'.current < |s'.tasks| && IdleStays(s', events[1..], maxTasks))
  }

  ghost predicate IdleLives(s: State) {
    s.tasks != [] && (s.tasks[0].state == Ready || s.tasks[0].state == Running)
  }

  /** So every run of the kernel is safe, as its task 0 does neither. */
  lemma {:induction false} IdleRun(s: State, events: seq<Event>, maxTasks: nat)
    requires Inv(s) && IdleLives(s) && IdleStays(s, events, maxTasks)
    ensures Allowed(s, events, maxTasks)
    decreases events
  {
    hide Step, WaitOk, Distance;
    if events != [] {
      if Leaves(s, events[0]) {
        assert s.tasks[0].state == Ready;
      }
      StepSafe(s, events[0], maxTasks);
      IdleStep(s, events[0], maxTasks);
      IdleRun(Step(s, events[0], maxTasks), events[1..], maxTasks);
    }
  }

  lemma IdleStep(s: State, e: Event, maxTasks: nat)
    requires Inv(s) && IdleLives(s) && (Leaves(s, e) ==> s.current != 0)
    ensures IdleLives(Step(s, e, maxTasks))
  {
    hide Left, Waiting, WaitOk, Distance, Stopped, Runnable;
    if s.current != 0 {
      ReadyMoves(s, e, maxTasks, 0);
      StepSafe(s, e, maxTasks);
      assert Leaves(s, e) ==> Runnable(s, e) by {
        IdleRuns(s, e);
      }
    } else if e.Send? {
      SentOk(s, e.tid, e.sig);
    }
  }

  lemma IdleRuns(s: State, e: Event)
    requires Inv(s) && IdleLives(s) && s.current != 0
    ensures Runnable(s, e)
  {
    assert s.tasks[0].state == Ready;
  }

  /** With task 0 waiting it goes wrong: the wait returns although nothing has finished, and no task is RUNNING. */
  lemma IdleMayNotWait(e: Event)
    requires e == Wait(1)
    ensures
      var s := State([Task(Running, -1, -1, 0), Task(Blocked, 0, -1, 0)], 0);
      var s' := Step(s, e, 8);
      Inv(s) && !Runnable(s, e) && s'.current == 0 && s'.tasks[0].state == Blocked && s'.tasks[1].state == Blocked
  {
    var s := State([Task(Running, -1, -1, 0), Task(Blocked, 0, -1, 0)], 0);
    assert WaitOk(s.tasks, 0) && WaitOk(s.tasks, 1);
    var tasks := Waiting(s, 1);
    assert tasks == [Task(Blocked, 1, -1, 0), Task(Blocked, 0, -1, 0)];
  }

  /** How many hand-overs a READY task may have to wait: rounds for the task slots still free, and its distance. */
  ghost function Patience(s: State, t: nat, maxTasks: nat): int
    requires s.current < |s.tasks| && t < |s.tasks|
  {
    (maxTasks - |s.tasks|) * maxTasks + Distance(s.current, t, |s.tasks|)
  }

  /** The hand-overs of a run. */
  ghost function HandOvers(s: State, events: seq<Event>, maxTasks: nat): nat
    requires s.current < |s.tasks|
    decreases events
  {
    if events == [] then 0
    else
      var s' := Step(s, events[0], maxTasks);
      (if Schedules(s, events[0]) then 1 else 0) +
          (if s'.current < |s'.tasks| then HandOvers(s', events[1..], maxTasks) else 0)
  }

  lemma PatienceFalls(s: State, e: Event, maxTasks: nat, t: nat)
    requires Inv(s) && |s.tasks| <= maxTasks && t < |s.tasks| && s.tasks[t].state == Ready
    requires Step(s, e, maxTasks).current != t
    ensures
      var s' := Step(s, e, maxTasks);
      && |s.tasks| <= |s'.tasks| <= maxTasks && s'.current < |s'.tasks| && s'.tasks[t].state == Ready
      && Patience(s', t, maxTasks) <= Patience(s, t, maxTasks) - (if Schedules(s, e) then 1 else 0)
  {
    hide Step;
    ReadyMoves(s, e, maxTasks, t);
    var s' := Step(s, e, maxTasks);
    if |s'.tasks| > |s.tasks| {
      assert (maxTasks - |s'.tasks|) * maxTasks == (maxTasks - |s.tasks|) * maxTasks - maxTasks;
    }
  }

  lemma PatiencePositive(s: State, t: nat, maxTasks: nat)
    requires s.current < |s.tasks| <= maxTasks && t < |s.tasks|
    ensures 1 <= Patience(s, t, maxTasks)
  {
    hide Distance;
    NoDebt(maxTasks - |s.tasks|, maxTasks);
  }

  lemma NoDebt(a: nat, b: nat)
    ensures 0 <= a * b
  {
  }

  /** Some moment of the run at which `t` is the current task. */
  ghost predicate GetsTurn(s: State, events: seq<Event>, maxTasks: nat, t: nat)
    requires s.current < |s.tasks|
    decreases events
  {
    s.current == t ||
    (&& events != []
     && var s' := Step(s, events[0], maxTasks);
        s'.current < |s'.tasks| && GetsTurn(s', events[1..], maxTasks, t))
  }

  /** Bounded bypass: whatever the others do, with that many hand-overs a READY task has had its turn. */
  lemma {:induction false} Bypass(s: State, events: seq<Event>, maxTasks: nat, t: nat)
    requires Inv(s) && |s.tasks| <= maxTasks && t < |s.tasks| && s.tasks[t].state == Ready
    requires Allowed(s, events, maxTasks)
    requires Patience(s, t, maxTasks) <= HandOvers(s, events, maxTasks)
    ensures GetsTurn(s, events, maxTasks, t)
    decreases events
  {
    hide Step, WaitOk, Patience;
    PatiencePositive(s, t, maxTasks);
    if events != [] {
      StepSafe(s, events[0], maxTasks);
      var s' := Step(s, events[0], maxTasks);
      if s'.current != t {
        PatienceFalls(s, events[0], maxTasks, t);
        Bypass(s', events[1..], maxTasks, t);
      }
    }
  }

  /** With no task created, at most all the others go first. */
  lemma {:induction false} BypassOthers(s: State, events: seq<Event>, maxTasks: nat, t: nat)
    requires Inv(s) && t < |s.tasks| && s.tasks[t].state == Ready && Allowed(s, events, maxTasks)
    requires forall e | e in events :: !e.Create?
    requires |s.tasks| - 1 <= HandOvers(s, events, maxTasks)
    ensures GetsTurn(s, events, maxTasks, t)
  {
    if s.current != t {
      NearerEach(s, events, maxTasks, t);
    }
  }

  lemma {:induction false} NearerEach(s: State, events: seq<Event>, maxTasks: nat, t: nat)
    requires Inv(s) && t < |s.tasks| && s.tasks[t].state == Ready && Allowed(s, events, maxTasks)
    requires forall e | e in events :: !e.Create?
    requires Distance(s.current, t, |s.tasks|) <= HandOvers(s, events, maxTasks)
    ensures GetsTurn(s, events, maxTasks, t)
    decreases events
  {
    hide Step, WaitOk;
    if events != [] {
      StepSafe(s, events[0], maxTasks);
      ReadyMoves(s, events[0], maxTasks, t);
      var s' := Step(s, events[0], maxTasks);
      if s'.current != t {
        NearerEach(s', events[1..], maxTasks, t);
      }
    }
  }

  class Sched {
    const maxTasks: nat
    var tasks: seq<Task>
    var current: nat

    ghost function View(): State
      reads this
    {
      State(tasks, current)
    }

    ghost predicate Valid()
      reads this
    {
      Inv(View()) && |tasks| <= maxTasks
    }

    /** `sched_init`. */
    constructor (maxTasks: nat)
      requires 1 <= maxTasks
      ensures Valid() && IdleLives(View()) && this.maxTasks == maxTasks && |tasks| == 1
    {
      this.maxTasks := maxTasks;
      tasks, current := [Task(Running, -1, -1, 0)], 0;
    }

    /** `pick_next`. */
    method PickNext() returns (r: nat)
      requires current < |tasks|
      ensures r == Next(View()) && r < |tasks|
    {
      hide Next;
      ghost var s := View();
      for i := 1 to |tasks| + 1
        invariant forall t | 0 <= t < |tasks| && tasks[t].state == Ready :: i <= Distance(current, t, |tasks|)
      {
        PlaceIsMod(current, i, |tasks|);
        var idx := (current + i) % |tasks|;
        if tasks[idx].state == Ready {
          Nearest(s, i);
          return idx;
        }
      }
      assert forall t | 0 <= t < |tasks| :: tasks[t].state != Ready;
      if tasks[current].state == Running {
        OneNext(s, current, Next(s));
        return current;
      }
      OneNext(s, 0, Next(s));
      return 0;
    }

    /** `switch_to`. */
    method SwitchTo(next: nat)
      requires next < |tasks| && current < |tasks| && next == Next(View())
      modifies this
      ensures View() == Reschedule(old(View()))
    {
      if next == current {
        return;
      }
      var prev := current;
      if tasks[prev].state == Running {
        tasks := tasks[prev := tasks[prev].(state := Ready)];
      }
      tasks := tasks[next := tasks[next].(state := Running)];
      current := next;
    }

    /** `sched_yield`; `sched_tick` does the same beside counting. */
    method DoYield()
      requires current < |tasks|
      modifies this
      ensures View() == Reschedule(old(View()))
    {
      var next := PickNext();
      SwitchTo(next);
    }

    /** The task table's half of `signal_send`. */
    method SignalSend(tid: int, sig: int) returns (r: int)
      requires Valid()
      modifies this`tasks
      ensures View() == Step(old(View()), Send(tid, sig), maxTasks)
      ensures r == if Accepts(old(tasks), tid, sig) then 0 else -1
    {
      r := Post(tid, sig);
    }

    method Post(tid: int, sig: int) returns (r: int)
      modifies this`tasks
      ensures tasks == Sent(old(tasks), tid, sig)
      ensures r == if Accepts(old(tasks), tid, sig) then 0 else -1
    {
      if sig < 1 || sig >= PendingSignals.NSIG {
        return -1;
      }
      if tid < 0 || tid >= |tasks| || tasks[tid].state == Finished {
        return -1;
      }
      var pending := PendingSignals.Joined(tasks[tid].pending, PendingSignals.Mask(sig));
      tasks := tasks[tid := tasks[tid].(pending := pending)];
      if tasks[tid].state == Blocked {
        tasks := tasks[tid := tasks[tid].(state := Ready, waitFor := -1)];
      }
      return 0;
    }

    /** `sched_exit`. */
    method DoExit()
      requires Valid()
      modifies this
      ensures View() == Step(old(View()), Exit, maxTasks)
      ensures Runnable(old(View()), Exit) ==> Valid()
    {
      hide Sent, Reschedule, Inv;
      var me := current;
      StepSafe(View(), Exit, maxTasks);
      ghost var s := View();
      assert me < |tasks| by {
        InRange(s);
      }
      tasks := tasks[me := tasks[me].(state := Finished)];
      if tasks[me].parent >= 0 {
        var _ := Post(tasks[me].parent, Signals.SIGCHLD);
      }
      WakeAll(me);
      assert tasks == Left(s);
      LeftStopped(s);
      DoYield();
    }

    /** The loop of `sched_exit`. */
    method WakeAll(me: nat)
      modifies this`tasks
      ensures tasks == Woken(old(tasks), me)
    {
      for i := 0 to |tasks|
        invariant |tasks| == |old(tasks)|
        invariant forall t | 0 <= t < i :: tasks[t] == WokenTask(old(tasks)[t], me)
        invariant forall t | i <= t < |tasks| :: tasks[t] == old(tasks)[t]
      {
        if tasks[i].state == Blocked && tasks[i].waitFor == me {
          tasks := tasks[i := tasks[i].(state := Ready, waitFor := -1)];
        }
      }
    }

    /** `sched_wait` up to the context switch. */
    method DoWait(tid: int) returns (r: int)
      requires Valid()
      modifies this
      ensures View() == Step(old(View()), Wait(tid), maxTasks)
      ensures (Waits(old(View()), tid) ==> Runnable(old(View()), Wait(tid))) ==> Valid()
      ensures r == if 0 <= tid < |old(tasks)| then 0 else -1
    {
      hide Reschedule, Inv, Runnable;
      InRange(View());
      StepSafe(View(), Wait(tid), maxTasks);
      if tid < 0 || tid >= |tasks| {
        return -1;
      }
      if tasks[tid].state == Finished {
        return 0;
      }
      tasks := tasks[current := tasks[current].(state := Blocked, waitFor := tid)];
      DoYield();
      return 0;
    }

    /**
     * The entry into the table that `sched_create`, `sched_create_user` and `sched_fork` make once their
     * memory is there.
     */
    method Add(fork: bool, ok: bool) returns (id: int)
      requires Valid()
      modifies this`tasks
      ensures Valid() && View() == Step(old(View()), Create(fork, ok), maxTasks)
      ensures id == if ok && |old(tasks)| < maxTasks then |old(tasks)| else -1
    {
      hide Inv;
      if |tasks| >= maxTasks || !ok {
        return -1;
      }
      InRange(View());
      CreatedOk(View(), fork);
      id := |tasks|;
      tasks := tasks + [Task(Ready, -1, if fork then current else -1, 0)];
    }
  }

  lemma InRange(s: State)
    requires Inv(s)
    ensures s.current < |s.tasks|
  {
  }

  /** The first READY task the scan meets is the one. */
  lemma Nearest(s: State, i: nat)
    requires s.current < |s.tasks| && 1 <= i <= |s.tasks|
    requires forall t | 0 <= t < |s.tasks| && s.tasks[t].state == Ready :: i <= Distance(s.current, t, |s.tasks|)
    requires s.tasks[Place(s.current, i, |s.tasks|)].state == Ready
    ensures Place(s.current, i, |s.tasks|) == Next(s)
  {
    OneNext(s, Place(s.current, i, |s.tasks|), Next(s));
  }
}
