// The scheduler on values: the task list of task.c, the timer interrupt of pic.c and the
// sleep and exit calls of syscall.c as steps of a machine, and what every run of it keeps.
module SchedulerModel {
  import opened Basics

  const TICK_MS: nat := 10

  datatype TaskState = Ready | Running | Paused | Completed | Terminated | Blocked

  datatype Tcb = Tcb(state: TaskState, priority: nat, slice: nat, wake: nat) {
    predicate Runnable() { state != Completed && state != Blocked }
  }

  // tasks[0] is the idle task made by init_task.
  datatype Sched = Sched(tasks: seq<Tcb>, cur: nat, clock: nat)

  // ---------------------------------------------------------------- the ring

  // The task d places after i, wrapping from the end of the list to its head.
  function Ahead(n: nat, i: nat, d: nat): (k: nat)
    requires i < n && d <= n
    ensures k < n
  {
    if i + d < n then i + d else i + d - n
  }

  function Distance(n: nat, i: nat, j: nat): (d: nat)
    requires i < n && j < n
    ensures d < n && Ahead(n, i, d) == j
  {
    if i <= j then j - i else n + j - i
  }

  // Places the walk of schedule() moves on before it stops, at least from the d-th.
  function Skips(ts: seq<Tcb>, cur: nat, d: nat): (k: nat)
    requires cur < |ts| && 1 <= d <= |ts|
    ensures d <= k <= |ts|
    ensures forall e :: d <= e < k ==> !ts[Ahead(|ts|, cur, e)].Runnable()
    ensures k < |ts| ==> ts[Ahead(|ts|, cur, k)].Runnable()
    decreases |ts| - d
  {
    if d == |ts| || ts[Ahead(|ts|, cur, d)].Runnable() then d else Skips(ts, cur, d + 1)
  }

  // ---------------------------------------------------------------- operations

  function Yielded(t: Tcb): Tcb {
    if t.Runnable() then t.(state := Paused) else t
  }

  function Schedule(s: Sched): Sched
    requires s.cur < |s.tasks|
  {
    var ts := s.tasks[s.cur := Yielded(s.tasks[s.cur])];
    var next := Ahead(|ts|, s.cur, Skips(ts, s.cur, 1));
    s.(tasks := ts[next := ts[next].(state := Running)], cur := next)
  }

  function Woken(t: Tcb, clock: nat): Tcb {
    if t.state == Blocked && clock >= t.wake then t.(state := Ready) else t
  }

  function WakeAll(ts: seq<Tcb>, clock: nat): (r: seq<Tcb>)
    ensures |r| == |ts|
    ensures forall i :: 0 <= i < |ts| ==> r[i] == Woken(ts[i], clock)
  {
    seq(|ts|, i requires 0 <= i < |ts| => Woken(ts[i], clock))
  }

  // timer_irq0_handler up to the point where it decides whether to call schedule().
  function Counted(s: Sched): Sched
    requires s.cur < |s.tasks|
  {
    var clock := (s.clock + TICK_MS) % U32;
    var ts := WakeAll(s.tasks, clock);
    var t := ts[s.cur];
    Sched(ts[s.cur := t.(slice := if t.slice > 1 then t.slice - 1 else t.priority)], s.cur, clock)
  }

  // timer_irq0_handler.
  function Tick(s: Sched): Sched
    requires s.cur < |s.tasks|
  {
    if s.tasks[s.cur].slice > 1 then Counted(s) else Schedule(Counted(s))
  }

  function Slept(s: Sched, ms: nat): Sched
    requires s.cur < |s.tasks|
  {
    var t := s.tasks[s.cur].(wake := (s.clock + ms) % U32, state := Blocked);
    s.(tasks := s.tasks[s.cur := t])
  }

  // syscall_sleep.
  function Sleep(s: Sched, ms: nat): Sched
    requires s.cur < |s.tasks|
  {
    if ms == 0 then s else Schedule(Slept(s, ms))
  }

  // task_exit marks the task and spins until the timer takes the processor away.
  function MarkCompleted(s: Sched): Sched
    requires s.cur < |s.tasks|
  {
    s.(tasks := s.tasks[s.cur := s.tasks[s.cur].(state := Completed)])
  }

  // syscall_exit.
  function Exit(s: Sched): Sched
    requires s.cur < |s.tasks|
  {
    Schedule(MarkCompleted(s))
  }

  function Create(s: Sched, priority: nat): Sched {
    s.(tasks := s.tasks + [Tcb(Ready, priority, priority, 0)])
  }

  function Init(): Sched {
    Sched([Tcb(Ready, 5, 5, 0)], 0, 0)
  }

  datatype Op = TickOp | SleepOp(ms: nat) | ExitOp | TaskExitOp | ScheduleOp | CreateOp(priority: nat)

  function Step(s: Sched, op: Op): Sched
    requires s.cur < |s.tasks|
  {
    match op
    case TickOp => Tick(s)
    case SleepOp(ms) => Sleep(s, ms)
    case ExitOp => Exit(s)
    case TaskExitOp => MarkCompleted(s)
    case ScheduleOp => Schedule(s)
    case CreateOp(priority) => Create(s, priority)
  }

  // Sleeping and exiting are acts of a running task, and the idle task does neither.
  predicate Enabled(s: Sched, op: Op)
    requires s.cur < |s.tasks|
  {
    match op
    case TickOp => true
    case ScheduleOp => true
    case CreateOp(priority) => priority > 0
    case _ => s.cur != 0 && s.tasks[s.cur].state == Running
  }

  // Does this step go through schedule()?
  predicate Switches(s: Sched, op: Op)
    requires s.cur < |s.tasks|
  {
    match op
    case TickOp => s.tasks[s.cur].slice <= 1
    case SleepOp(ms) => ms > 0
    case ExitOp => true
    case ScheduleOp => true
    case _ => false
  }

  // ---------------------------------------------------------------- safety

  // What schedule() relies on: the idle task can run, and the others are not marked running.
  predicate Sound(s: Sched) {
    && s.cur < |s.tasks|
    && s.tasks[0].Runnable()
    && (forall i :: 0 <= i < |s.tasks| ==> s.tasks[i].state == Running ==> i == s.cur)
    && (forall i :: 0 <= i < |s.tasks| ==> 1 <= s.tasks[i].slice <= s.tasks[i].priority)
  }

  // At most one task is running and it is the current one, which is never blocked.
  predicate Inv(s: Sched) {
    Sound(s) && s.tasks[s.cur].state != Blocked
  }

  lemma UpdateSound(s: Sched, t: Tcb)
    requires Sound(s) && 1 <= t.slice <= t.priority && (s.cur == 0 ==> t.Runnable())
    ensures Sound(s.(tasks := s.tasks[s.cur := t]))
  {
  }

  lemma WakeSound(s: Sched, clock: nat)
    requires Sound(s)
    ensures Sound(Sched(WakeAll(s.tasks, clock), s.cur, clock))
  {
  }

  lemma CountedSound(s: Sched)
    requires Inv(s)
    ensures Inv(Counted(s))
  {
    var clock := Counted(s).clock;
    WakeSound(s, clock);
    UpdateSound(Sched(WakeAll(s.tasks, clock), s.cur, clock), Counted(s).tasks[s.cur]);
  }

  // The walk ends at the first runnable task after the current one in ring order, the
  // current task itself coming last; it never comes back to a task that cannot run.
  lemma ScheduleSelects(s: Sched, d: nat)
    requires Sound(s)
    requires d == Distance(|s.tasks|, s.cur, Schedule(s).cur)
    ensures Schedule(s).cur < |s.tasks| && s.tasks[Schedule(s).cur].Runnable()
    ensures forall e :: 1 <= e < (if d == 0 then |s.tasks| else d)
              ==> !s.tasks[Ahead(|s.tasks|, s.cur, e)].Runnable()
  {
    var ts := s.tasks[s.cur := Yielded(s.tasks[s.cur])];
    var n := |ts|;
    assert forall i :: 0 <= i < n ==> ts[i].Runnable() == s.tasks[i].Runnable();
    assert Ahead(n, s.cur, if s.cur == 0 then n else n - s.cur) == 0;
    assert forall e :: 1 <= e <= n ==> ts[Ahead(n, s.cur, e)].Runnable() == s.tasks[Ahead(n, s.cur, e)].Runnable();
  }

  lemma ScheduleKeepsInv(s: Sched)
    requires Sound(s)
    ensures Inv(Schedule(s)) && Schedule(s).tasks[Schedule(s).cur].state == Running
    ensures |Schedule(s).tasks| == |s.tasks|
    ensures forall i :: 0 <= i < |s.tasks| ==>
      var t := Schedule(s).tasks[i];
      && t == s.tasks[i].(state := t.state)
      && (t.state == s.tasks[i].state || (s.tasks[i].Runnable() && t.Runnable()))
  {
    ScheduleSelects(s, Distance(|s.tasks|, s.cur, Schedule(s).cur));
  }

  lemma StepKeepsInv(s: Sched, op: Op)
    requires Inv(s) && Enabled(s, op)
    ensures Inv(Step(s, op))
  {
    match op
    case TickOp =>
      CountedSound(s);
      ScheduleKeepsInv(Counted(s));
    case SleepOp(ms) =>
      UpdateSound(s, Slept(s, ms).tasks[s.cur]);
      ScheduleKeepsInv(Slept(s, ms));
    case ExitOp => ScheduleKeepsInv(MarkCompleted(s));
    case TaskExitOp =>
    case ScheduleOp => ScheduleKeepsInv(s);
    case CreateOp(priority) =>
  }

  // ---------------------------------------------------------------- runs

  // The walk comes back to the current task only when no other task can run.
  lemma ScheduleMovesOn(s: Sched, j: nat)
    requires Sound(s) && j < |s.tasks| && j != s.cur && s.tasks[j].Runnable()
    ensures Schedule(s).cur != s.cur
  {
    var d := Distance(|s.tasks|, s.cur, Schedule(s).cur);
    ScheduleSelects(s, d);
    assert Ahead(|s.tasks|, s.cur, Distance(|s.tasks|, s.cur, j)) == j;
  }

  // A task keeps the processor while it has slice left, one tick at a time; at the end of its
  // slice it gets a new one and makes way for any other task that can run.
  lemma TickUsesSlice(s: Sched)
    requires Inv(s)
    ensures var t, r := s.tasks[s.cur], Tick(s);
      && |r.tasks| == |s.tasks|
      && r.tasks[s.cur].slice == (if t.slice > 1 then t.slice - 1 else t.priority)
      && (t.slice > 1 ==> r.cur == s.cur)
      && (t.slice == 1 && (exists j :: 0 <= j < |s.tasks| && j != s.cur && s.tasks[j].Runnable()) ==> r.cur != s.cur)
  {
    CountedSound(s);
    if s.tasks[s.cur].slice <= 1 {
      ScheduleKeepsInv(Counted(s));
      if j :| 0 <= j < |s.tasks| && j != s.cur && s.tasks[j].Runnable() {
        ScheduleMovesOn(Counted(s), j);
      }
    }
  }

  // ---------------------------------------------------------------- new states in full

  // Neither completed nor blocked.
  predicate CanRun(t: Tcb) { t.state in {Ready, Running, Paused, Terminated} }

  // Task i after schedule(), which left task next current.
  function AfterSchedule(s: Sched, next: nat, i: nat): Tcb
    requires s.cur < |s.tasks| && i < |s.tasks|
  {
    if i == next then s.tasks[i].(state := Running)
    else if i == s.cur && CanRun(s.tasks[i]) then s.tasks[i].(state := Paused)
    else s.tasks[i]
  }

  // schedule() makes the first task behind the current one that can run the running one, pauses
  // the current task if it could run, and changes nothing else.
  lemma ScheduleInFull(s: Sched)
    requires Sound(s)
    ensures var r := Schedule(s);
      && r.cur < |s.tasks| == |r.tasks| && r.clock == s.clock
      && (forall i :: 0 <= i < |s.tasks| ==> r.tasks[i] == AfterSchedule(s, r.cur, i))
      && IsNext(s, r.cur, s.clock, false)
  {
    ScheduleSelects(s, Distance(|s.tasks|, s.cur, Schedule(s).cur));
  }

  // A task that can run, or is woken at the time given.
  predicate CanRunAt(t: Tcb, now: nat, waking: bool) {
    CanRun(t) || (waking && t.state == Blocked && t.wake <= now)
  }

  // next is the first such task in ring order behind the current one, the current one last.
  predicate IsNext(s: Sched, next: nat, now: nat, waking: bool)
    requires s.cur < |s.tasks| && next < |s.tasks|
  {
    var n := |s.tasks|;
    var d := Distance(n, s.cur, next);
    && CanRunAt(s.tasks[next], now, waking)
    && forall e :: 1 <= e < (if d == 0 then n else d) ==> !CanRunAt(s.tasks[Ahead(n, s.cur, e)], now, waking)
  }

  // What the interrupt does to task i before it may switch: a blocked task whose time has come
  // is ready, and the current one has this slice.
  function AtTick(s: Sched, now: nat, slice: nat, i: nat): Tcb
    requires s.cur < |s.tasks| && i < |s.tasks|
  {
    var t := s.tasks[i];
    var u := if t.state == Blocked && t.wake <= now then t.(state := Ready) else t;
    if i == s.cur then u.(slice := slice) else u
  }

  // A tick within a slice moves the clock on by 10 ms, wakes the tasks whose time has come, and
  // takes one off the slice.
  lemma TickWithinSlice(s: Sched)
    requires Inv(s) && s.tasks[s.cur].slice > 1
    ensures var r, now := Tick(s), (s.clock + 10) % 0x1_0000_0000;
      && r.cur == s.cur && r.clock == now && |r.tasks| == |s.tasks|
      && forall i :: 0 <= i < |s.tasks| ==> r.tasks[i] == AtTick(s, now, s.tasks[s.cur].slice - 1, i)
  {
  }

  // A tick at the end of a slice wakes first and switches then: the next task is the first one
  // behind the current one that could run, or was blocked with a wake-up time the clock has now
  // reached. It runs; the current task comes last, has a new slice, and is paused if it could
  // run; the others are ready if they were woken, and otherwise as they were.
  lemma TickAtSliceEnd(s: Sched)
    requires Inv(s) && s.tasks[s.cur].slice == 1
    ensures var r, now := Tick(s), (s.clock + 10) % 0x1_0000_0000;
      && r.cur < |s.tasks| == |r.tasks| && r.clock == now && IsNext(s, r.cur, now, true)
      && r.tasks[r.cur].state == Running
      && forall i :: 0 <= i < |s.tasks| ==>
        var t := AtTick(s, now, s.tasks[s.cur].priority, i);
        r.tasks[i] == if i == r.cur then t.(state := Running)
                      else if i == s.cur && CanRun(t) then t.(state := Paused) else t
  {
    var u, now := Counted(s), (s.clock + 10) % 0x1_0000_0000;
    CountedSound(s);
    forall i | 0 <= i < |s.tasks|
      ensures u.tasks[i] == AtTick(s, now, s.tasks[s.cur].priority, i)
    {
    }
    ScheduleInFull(u);
    forall i | 0 <= i < |s.tasks|
      ensures CanRunAt(u.tasks[i], now, false) == CanRunAt(s.tasks[i], now, true)
    {
    }
  }

  // A sleep of 0 ms changes nothing; any other blocks the task until the clock plus ms, modulo
  // 2^32, and switches.
  lemma SleepInFull(s: Sched, ms: nat)
    requires Inv(s) && Enabled(s, SleepOp(ms))
    ensures Sleep(s, 0) == s
    ensures ms > 0 ==>
      var r := Sleep(s, ms);
      && r.cur < |s.tasks| == |r.tasks| && r.clock == s.clock && r.cur != s.cur && IsNext(s, r.cur, 0, false)
      && forall i :: 0 <= i < |s.tasks| ==>
        r.tasks[i] == if i == s.cur then s.tasks[i].(state := Blocked, wake := (s.clock + ms) % 0x1_0000_0000)
                      else AfterSchedule(s, r.cur, i)
  {
    if ms > 0 {
      UpdateSound(s, Slept(s, ms).tasks[s.cur]);
      StoppedInFull(s, Slept(s, ms));
    }
  }

  // The current task has stopped for another reason than its slice.
  lemma StoppedInFull(s: Sched, u: Sched)
    requires Inv(s) && Sound(u) && s.cur != 0 && u.cur == s.cur
    requires u == s.(tasks := s.tasks[s.cur := u.tasks[s.cur]])
    requires !CanRun(u.tasks[s.cur])
    ensures var r := Schedule(u);
      && r.cur < |s.tasks| == |r.tasks| && r.clock == s.clock && r.cur != s.cur && IsNext(s, r.cur, 0, false)
      && forall i :: 0 <= i < |s.tasks| ==> r.tasks[i] == if i == s.cur then u.tasks[i] else AfterSchedule(s, r.cur, i)
  {
    ScheduleInFull(u);
    var n, next := |s.tasks|, Schedule(u).cur;
    assert CanRun(u.tasks[next]) && next != s.cur;
    forall e | 1 <= e < Distance(n, s.cur, next)
      ensures !CanRunAt(s.tasks[Ahead(n, s.cur, e)], 0, false)
    {
      assert !CanRunAt(u.tasks[Ahead(n, s.cur, e)], s.clock, false);
      assert Ahead(n, s.cur, e) != s.cur;
    }
  }

  // syscall_exit completes the task and switches; task_exit completes it and waits.
  lemma ExitInFull(s: Sched)
    requires Inv(s) && Enabled(s, ExitOp)
    ensures MarkCompleted(s) == s.(tasks := s.tasks[s.cur := s.tasks[s.cur].(state := Completed)])
    ensures var r := Exit(s);
      && r.cur < |s.tasks| == |r.tasks| && r.clock == s.clock && r.cur != s.cur && IsNext(s, r.cur, 0, false)
      && forall i :: 0 <= i < |s.tasks| ==>
        r.tasks[i] == if i == s.cur then s.tasks[i].(state := Completed) else AfterSchedule(s, r.cur, i)
  {
    UpdateSound(s, s.tasks[s.cur].(state := Completed));
    StoppedInFull(s, MarkCompleted(s));
  }

  // The idle task has priority 5, and a new task comes last, ready, with a whole slice.
  lemma CreatedInFull(s: Sched, priority: nat)
    ensures Init() == Sched([Tcb(Ready, 5, 5, 0)], 0, 0)
    ensures var r := Create(s, priority);
      && |r.tasks| == |s.tasks| + 1 && r.tasks[..|s.tasks|] == s.tasks && r.cur == s.cur && r.clock == s.clock
      && r.tasks[|s.tasks|].state == Ready && r.tasks[|s.tasks|].slice == r.tasks[|s.tasks|].priority == priority
  {
  }

  // Exit completes the current task and hands the processor to another one.
  lemma ExitYields(s: Sched)
    requires Inv(s) && Enabled(s, ExitOp)
    ensures s.cur < |Exit(s).tasks| && Exit(s).tasks[s.cur].state == Completed && Exit(s).cur != s.cur
  {
    UpdateSound(s, s.tasks[s.cur].(state := Completed));
    ScheduleKeepsInv(MarkCompleted(s));
  }

  predicate AllEnabled(s: Sched, ops: seq<Op>)
    requires s.cur < |s.tasks|
    decreases |ops|
  {
    ops == [] ||
    (&& Enabled(s, ops[0])
     && Step(s, ops[0]).cur < |Step(s, ops[0]).tasks|
     && AllEnabled(Step(s, ops[0]), ops[1..]))
  }

  function Run(s: Sched, ops: seq<Op>): (r: Sched)
    requires s.cur < |s.tasks| && AllEnabled(s, ops)
    ensures r.cur < |r.tasks|
    decreases |ops|
  {
    if ops == [] then s else Run(Step(s, ops[0]), ops[1..])
  }

  lemma InitInv()
    ensures Inv(Init())
  {
  }

  // In every reachable state at most one task is running, it is the current one, no blocked
  // task is current, and every time slice lies between 1 and the task's priority.
  lemma {:induction false} RunKeepsInv(s: Sched, ops: seq<Op>)
    requires Inv(s) && AllEnabled(s, ops)
    ensures Inv(Run(s, ops))
    decreases |ops|
  {
    if ops != [] {
      StepKeepsInv(s, ops[0]);
      RunKeepsInv(Step(s, ops[0]), ops[1..]);
    }
  }

  // The same over every run from the single idle task that init_task makes.
  lemma ReachableInv(ops: seq<Op>)
    requires AllEnabled(Init(), ops)
    ensures Inv(Run(Init(), ops))
  {
    InitInv();
    RunKeepsInv(Init(), ops);
  }

  // t' is what a step makes of a task t that is not the current one.
  predicate Carried(t: Tcb, t': Tcb, woken: bool) {
    && t'.slice == t.slice && t'.priority == t.priority && t'.wake == t.wake
    && (t.state == Completed ==> t'.state == Completed)
    && (t.Runnable() ==> t'.Runnable())
    && (t.state == Blocked ==> if woken then t'.Runnable() else t'.state == Blocked)
  }

  lemma TickOther(s: Sched, i: nat)
    requires Inv(s) && i < |s.tasks| && i != s.cur
    ensures i < |Tick(s).tasks| && Carried(s.tasks[i], Tick(s).tasks[i], Tick(s).clock >= s.tasks[i].wake)
  {
    var u := Counted(s);
    assert u.tasks[i] == Woken(s.tasks[i], u.clock);
    if s.tasks[s.cur].slice <= 1 {
      CountedSound(s);
      ScheduleKeepsInv(u);
    }
  }

  lemma StepOther(s: Sched, op: Op, i: nat)
    requires Inv(s) && Enabled(s, op) && i < |s.tasks| && i != s.cur
    ensures i < |Step(s, op).tasks|
    ensures Carried(s.tasks[i], Step(s, op).tasks[i], op.TickOp? && Step(s, op).clock >= s.tasks[i].wake)
  {
    match op
    case TickOp => TickOther(s, i);
    case SleepOp(ms) =>
      UpdateSound(s, Slept(s, ms).tasks[s.cur]);
      ScheduleKeepsInv(Slept(s, ms));
    case ExitOp => ScheduleKeepsInv(MarkCompleted(s));
    case TaskExitOp =>
    case ScheduleOp => ScheduleKeepsInv(s);
    case CreateOp(priority) =>
  }

  // A completed task stays completed, even while it is still the current one.
  lemma StepCompleted(s: Sched, op: Op, i: nat)
    requires Inv(s) && Enabled(s, op) && i < |s.tasks| && s.tasks[i].state == Completed
    ensures i < |Step(s, op).tasks| && Step(s, op).tasks[i].state == Completed
  {
    if i != s.cur {
      StepOther(s, op, i);
    } else if op.TickOp? {
      CountedSound(s);
      ScheduleKeepsInv(Counted(s));
    } else if op.ScheduleOp? {
      ScheduleKeepsInv(s);
    }
  }

  lemma {:induction false} CompletedIsFinal(s: Sched, ops: seq<Op>, i: nat)
    requires Inv(s) && AllEnabled(s, ops) && i < |s.tasks| && s.tasks[i].state == Completed
    ensures i < |Run(s, ops).tasks| && Run(s, ops).tasks[i].state == Completed
    decreases |ops|
  {
    if ops != [] {
      StepKeepsInv(s, ops[0]);
      StepCompleted(s, ops[0], i);
      CompletedIsFinal(Step(s, ops[0]), ops[1..], i);
    }
  }

  // ---------------------------------------------------------------- bounded waiting

  // The time slices of the tasks a to b - 1 places after base.
  function Slices(ts: seq<Tcb>, base: nat, a: nat, b: nat): nat
    requires base < |ts| && a <= b <= |ts|
    decreases b - a
  {
    if a == b then 0 else ts[Ahead(|ts|, base, a)].slice + Slices(ts, base, a + 1, b)
  }

  function Priorities(ts: seq<Tcb>, base: nat, a: nat, b: nat): nat
    requires base < |ts| && a <= b <= |ts|
    decreases b - a
  {
    if a == b then 0 else ts[Ahead(|ts|, base, a)].priority + Priorities(ts, base, a + 1, b)
  }

  // The slices left to the tasks from the current one up to, but without, task j.
  function Waiting(s: Sched, j: nat): nat
    requires s.cur < |s.tasks| && j < |s.tasks|
  {
    Slices(s.tasks, s.cur, 0, Distance(|s.tasks|, s.cur, j))
  }

  // The priorities of all tasks but j, in ring order after it.
  function OtherPriorities(ts: seq<Tcb>, j: nat): nat
    requires j < |ts|
  {
    Priorities(ts, j, 1, |ts|)
  }

  function Ticks(ops: seq<Op>): nat {
    if ops == [] then 0 else (if ops[0].TickOp? then 1 else 0) + Ticks(ops[1..])
  }

  function Schedules(s: Sched, ops: seq<Op>): nat
    requires s.cur < |s.tasks| && AllEnabled(s, ops)
    decreases |ops|
  {
    if ops == [] then 0
    else (if Switches(s, ops[0]) then 1 else 0) + Schedules(Step(s, ops[0]), ops[1..])
  }

  predicate BecomesCurrent(s: Sched, ops: seq<Op>, j: nat)
    requires s.cur < |s.tasks| && AllEnabled(s, ops)
    decreases |ops|
  {
    s.cur == j || (ops != [] && BecomesCurrent(Step(s, ops[0]), ops[1..], j))
  }

  lemma {:induction false} SlicesSplit(ts: seq<Tcb>, base: nat, a: nat, m: nat, b: nat)
    requires base < |ts| && a <= m <= b <= |ts|
    ensures Slices(ts, base, a, b) == Slices(ts, base, a, m) + Slices(ts, base, m, b)
    decreases m - a
  {
    if a < m { SlicesSplit(ts, base, a + 1, m, b); }
  }

  // The same stretch of the ring counted from another task, with unchanged slices.
  lemma {:induction false} SlicesRebase(ts: seq<Tcb>, us: seq<Tcb>, base: nat, k: nat, a: nat, b: nat)
    requires |us| == |ts| && base < |ts| && a <= b && k + b <= |ts|
    requires forall x :: k + a <= x < k + b ==>
      us[Ahead(|ts|, base, x)].slice == ts[Ahead(|ts|, base, x)].slice
    ensures Slices(us, Ahead(|ts|, base, k), a, b) == Slices(ts, base, k + a, k + b)
    decreases b - a
  {
    if a < b {
      assert Ahead(|ts|, Ahead(|ts|, base, k), a) == Ahead(|ts|, base, k + a);
      SlicesRebase(ts, us, base, k, a + 1, b);
    }
  }

  // Moving on from the current task towards j takes its slice off what is left to wait for.
  lemma ScheduleApproaches(s: Sched, u: Sched, j: nat)
    requires Sound(s) && j < |s.tasks| && j != s.cur && s.tasks[j].Runnable()
    requires Sound(u) && u.cur == s.cur && |u.tasks| == |s.tasks|
    requires forall i :: 0 <= i < |s.tasks| && i != s.cur ==> u.tasks[i].slice == s.tasks[i].slice
    requires u.tasks[j].Runnable()
    ensures |Schedule(u).tasks| == |s.tasks|
    ensures Distance(|s.tasks|, Schedule(u).cur, j) < Distance(|s.tasks|, s.cur, j)
    ensures Waiting(Schedule(u), j) + s.tasks[s.cur].slice <= Waiting(s, j)
  {
    var n, d := |s.tasks|, Distance(|s.tasks|, s.cur, j);
    var k := Moved(u, d);
    var r := Schedule(u);
    assert Distance(n, r.cur, j) == d - k;
    SlicesSplit(s.tasks, s.cur, 0, k, d);
    assert Slices(s.tasks, s.cur, 0, k) >= s.tasks[Ahead(n, s.cur, 0)].slice;
    SlicesRebase(s.tasks, r.tasks, s.cur, k, 0, d - k);
  }

  // schedule() moves on by at least one place and not past a task that can run.
  lemma Moved(u: Sched, d: nat) returns (k: nat)
    requires Sound(u) && 1 <= d < |u.tasks| && u.tasks[Ahead(|u.tasks|, u.cur, d)].Runnable()
    ensures 1 <= k <= d && Schedule(u).cur == Ahead(|u.tasks|, u.cur, k)
    ensures |Schedule(u).tasks| == |u.tasks|
    ensures forall i :: 0 <= i < |u.tasks| ==> Schedule(u).tasks[i].slice == u.tasks[i].slice
  {
    var ts := u.tasks[u.cur := Yielded(u.tasks[u.cur])];
    k := Skips(ts, u.cur, 1);
    assert ts[Ahead(|ts|, u.cur, d)].Runnable();
  }

  lemma StepApproaches(s: Sched, op: Op, j: nat)
    requires Inv(s) && Enabled(s, op) && !op.CreateOp?
    requires j < |s.tasks| && j != s.cur && s.tasks[j].Runnable()
    ensures var r := Step(s, op);
      && |r.tasks| == |s.tasks| && r.cur < |r.tasks|
      && Waiting(r, j) + (if op.TickOp? then 1 else 0) <= Waiting(s, j)
      && Distance(|s.tasks|, r.cur, j) + (if Switches(s, op) then 1 else 0) <= Distance(|s.tasks|, s.cur, j)
  {
    match op
    case TickOp =>
      CountedSound(s);
      if s.tasks[s.cur].slice > 1 {
        SameCurrent(s, Counted(s), j);
      } else {
        ScheduleApproaches(s, Counted(s), j);
      }
    case SleepOp(ms) =>
      if ms > 0 {
        UpdateSound(s, Slept(s, ms).tasks[s.cur]);
        ScheduleApproaches(s, Slept(s, ms), j);
      }
    case ExitOp => ScheduleApproaches(s, MarkCompleted(s), j);
    case TaskExitOp => SameCurrent(s, MarkCompleted(s), j);
    case ScheduleOp => ScheduleApproaches(s, s, j);
  }

  // Without a switch only the current task's slice matters.
  lemma SameCurrent(s: Sched, u: Sched, j: nat)
    requires s.cur < |s.tasks| && j < |s.tasks| && j != s.cur
    requires u.cur == s.cur && |u.tasks| == |s.tasks|
    requires forall i :: 0 <= i < |s.tasks| && i != s.cur ==> u.tasks[i].slice == s.tasks[i].slice
    ensures Waiting(u, j) + s.tasks[s.cur].slice == Waiting(s, j) + u.tasks[s.cur].slice
  {
    var n, d := |s.tasks|, Distance(|s.tasks|, s.cur, j);
    SlicesRebase(s.tasks, u.tasks, s.cur, 0, 1, d);
  }

  // A task that can run waits for fewer timer ticks than the slices in front of it, and
  // for fewer calls of schedule() than its distance, as long as no task is created.
  lemma {:induction false} BoundedWaiting(s: Sched, ops: seq<Op>, j: nat)
    requires Inv(s) && AllEnabled(s, ops) && j < |s.tasks| && s.tasks[j].Runnable()
    requires forall k :: 0 <= k < |ops| ==> !ops[k].CreateOp?
    ensures BecomesCurrent(s, ops, j)
      || (&& Ticks(ops) < Waiting(s, j) <= OtherPriorities(s.tasks, j)
          && Schedules(s, ops) < Distance(|s.tasks|, s.cur, j) <= |s.tasks| - 1)
    decreases |ops|
  {
    if s.cur != j {
      WaitBelowPriorities(s, j);
      if ops != [] {
        StepKeepsInv(s, ops[0]);
        StepOther(s, ops[0], j);
        StepApproaches(s, ops[0], j);
        BoundedWaiting(Step(s, ops[0]), ops[1..], j);
      }
    }
  }

  lemma WaitBelowPriorities(s: Sched, j: nat)
    requires Inv(s) && j < |s.tasks| && j != s.cur
    ensures 0 < Waiting(s, j) <= OtherPriorities(s.tasks, j)
  {
    var n, d := |s.tasks|, Distance(|s.tasks|, s.cur, j);
    assert s.cur == Ahead(n, j, n - d);
    SlicesBelowPriorities(s.tasks, s.cur, j, n - d, 0, d);
    PrioritiesSuffix(s.tasks, j, 1, n - d);
  }

  lemma {:induction false} SlicesBelowPriorities(ts: seq<Tcb>, i: nat, j: nat, k: nat, a: nat, b: nat)
    requires i < |ts| && j < |ts| && k + b <= |ts| && a <= b && i == Ahead(|ts|, j, k)
    requires forall x :: 0 <= x < |ts| ==> ts[x].slice <= ts[x].priority
    ensures Slices(ts, i, a, b) <= Priorities(ts, j, k + a, k + b)
    decreases b - a
  {
    if a < b {
      assert Ahead(|ts|, i, a) == Ahead(|ts|, j, k + a);
      SlicesBelowPriorities(ts, i, j, k, a + 1, b);
    }
  }

  lemma {:induction false} PrioritiesSuffix(ts: seq<Tcb>, j: nat, a: nat, b: nat)
    requires j < |ts| && a <= b <= |ts|
    ensures Priorities(ts, j, b, |ts|) <= Priorities(ts, j, a, |ts|)
    decreases b - a
  {
    if a < b { PrioritiesSuffix(ts, j, a + 1, b); }
  }

  // ---------------------------------------------------------------- sleeping

  // Task j is blocked in every state of a run.
  predicate StaysBlocked(s: Sched, ops: seq<Op>, j: nat)
    requires s.cur < |s.tasks| && AllEnabled(s, ops)
    decreases |ops|
  {
    && j < |s.tasks| && s.tasks[j].state == Blocked
    && (ops == [] || StaysBlocked(Step(s, ops[0]), ops[1..], j))
  }

  // The clock k ticks on: it wraps at 32 bits.
  function ClockAfter(clock: nat, k: nat): nat { (clock + TICK_MS * k) % U32 }

  lemma ClockNext(clock: nat, k: nat)
    ensures ClockAfter(ClockAfter(clock, 1), k) == ClockAfter(clock, k + 1)
  {
    var q := (clock + TICK_MS) / U32;
    assert clock + TICK_MS * (k + 1) == U32 * q + (ClockAfter(clock, 1) + TICK_MS * k);
    ModShift(ClockAfter(clock, 1) + TICK_MS * k, q);
  }

  lemma {:induction false} ModShift(x: nat, q: nat)
    ensures (U32 * q + x) % U32 == x % U32
    decreases q
  {
    if q > 0 {
      ModShift(x, q - 1);
      assert (U32 * q + x) % U32 == (U32 * (q - 1) + x) % U32;
    }
  }

  // None of the next n clock values reaches the wake-up time.
  predicate NotReached(clock: nat, wake: nat, n: nat) {
    forall k: nat :: 1 <= k <= n ==> ClockAfter(clock, k) < wake
  }

  lemma NotReachedNext(clock: nat, wake: nat, n: nat)
    requires n > 0
    ensures NotReached(clock, wake, n)
       <==> ClockAfter(clock, 1) < wake && NotReached(ClockAfter(clock, 1), wake, n - 1)
  {
    forall k: nat
      ensures ClockAfter(ClockAfter(clock, 1), k) == ClockAfter(clock, k + 1)
    {
      ClockNext(clock, k);
    }
    if ClockAfter(clock, 1) < wake && NotReached(ClockAfter(clock, 1), wake, n - 1) {
      forall k: nat | 1 <= k <= n
        ensures ClockAfter(clock, k) < wake
      {
        if k > 1 { assert ClockAfter(ClockAfter(clock, 1), k - 1) < wake; }
      }
    }
  }

  lemma StepClock(s: Sched, op: Op)
    requires s.cur < |s.tasks|
    ensures Step(s, op).clock == if op.TickOp? then ClockAfter(s.clock, 1) else s.clock
  {
  }

  lemma StepSleeper(s: Sched, op: Op, j: nat)
    requires Inv(s) && Enabled(s, op) && j < |s.tasks| && s.tasks[j].state == Blocked
    ensures j < |Step(s, op).tasks| && Step(s, op).tasks[j].wake == s.tasks[j].wake
    ensures Step(s, op).tasks[j].state == Blocked <==> !op.TickOp? || ClockAfter(s.clock, 1) < s.tasks[j].wake
  {
    StepOther(s, op, j);
    StepClock(s, op);
  }

  // Over any run, clock wraps included, a sleeper stays blocked exactly as long as the clock has
  // not shown its wake-up time or more, and it is not current meanwhile.
  lemma {:induction false} StillAsleep(s: Sched, ops: seq<Op>, j: nat)
    requires Inv(s) && AllEnabled(s, ops) && j < |s.tasks| && s.tasks[j].state == Blocked
    ensures Inv(Run(s, ops))
    ensures StaysBlocked(s, ops, j) <==> NotReached(s.clock, s.tasks[j].wake, Ticks(ops))
    ensures StaysBlocked(s, ops, j) ==>
      var r := Run(s, ops);
      j < |r.tasks| && r.tasks[j].state == Blocked && r.cur != j && r.tasks[j].wake == s.tasks[j].wake
    decreases |ops|
  {
    if ops != [] {
      StepKeepsInv(s, ops[0]);
      RunKeepsInv(s, ops);
      StepSleeper(s, ops[0], j);
      StepClock(s, ops[0]);
      if ops[0].TickOp? { NotReachedNext(s.clock, s.tasks[j].wake, Ticks(ops)); }
      if Step(s, ops[0]).tasks[j].state == Blocked {
        StillAsleep(Step(s, ops[0]), ops[1..], j);
      }
    }
  }

  lemma {:induction false} RunClock(s: Sched, ops: seq<Op>)
    requires s.cur < |s.tasks| && AllEnabled(s, ops) && s.clock < U32
    ensures Run(s, ops).clock == ClockAfter(s.clock, Ticks(ops))
    decreases |ops|
  {
    if ops != [] {
      StepClock(s, ops[0]);
      RunClock(Step(s, ops[0]), ops[1..]);
      if ops[0].TickOp? { ClockNext(s.clock, Ticks(ops[1..])); }
    }
  }

  lemma SleepBlocks(s: Sched, ms: nat)
    requires Inv(s) && Enabled(s, SleepOp(ms)) && ms > 0
    ensures Inv(Sleep(s, ms)) && Sleep(s, ms).clock == s.clock
    ensures var t := Sleep(s, ms).tasks; s.cur < |t| && t[s.cur] == Slept(s, ms).tasks[s.cur]
  {
    UpdateSound(s, Slept(s, ms).tasks[s.cur]);
    ScheduleKeepsInv(Slept(s, ms));
  }

  // The number of ticks until at least ms milliseconds have passed.
  function TicksFor(ms: nat): (n: nat)
    ensures ms <= TICK_MS * n < ms + TICK_MS
  {
    (ms + TICK_MS - 1) / TICK_MS
  }

  // What a caller can check before a sleep: the wake-up time, rounded up to the clock's next
  // value, is below 2^32; or the clock is about to wrap at the next tick, the wake-up time
  // wraps with it, and neither wraps again.
  predicate OnTime(clock: nat, ms: nat) {
    var rounded := clock + TICK_MS * TicksFor(ms);
    rounded < U32 || (clock + TICK_MS >= U32 && clock + ms >= U32 && rounded < 2 * U32)
  }

  lemma WrapOnce(x: nat)
    requires x < 3 * U32
    ensures x % U32 == if x < U32 then x else if x < 2 * U32 then x - U32 else x - 2 * U32
  {
  }

  // On the clock alone: the wake-up time is first reached at the last of these ticks exactly
  // when the sleep is on time.
  lemma ReachedOnTime(clock: nat, ms: nat)
    requires clock < U32 && 0 < ms < U32
    ensures var n, wake := TicksFor(ms), (clock + ms) % U32;
      NotReached(clock, wake, n - 1) && ClockAfter(clock, n) >= wake <==> OnTime(clock, ms)
  {
    var n, wake := TicksFor(ms), (clock + ms) % U32;
    WrapOnce(clock + ms);
    WrapOnce(clock + TICK_MS * n);
    WrapOnce(clock + TICK_MS);
    if clock + TICK_MS < U32 <= clock + ms {
      assert n > 1 && ClockAfter(clock, 1) >= wake;
    } else {
      forall k: nat | 1 <= k <= n - 1
        ensures ClockAfter(clock, k) < wake
      {
        WrapOnce(clock + TICK_MS * k);
      }
    }
  }

  // Over any run up to the last tick before ms milliseconds have passed: the task has been
  // blocked all along, and the next tick makes it runnable, less than 10 ms late, exactly when
  // the sleep is on time.
  lemma SleepIsExact(s: Sched, ms: nat, ops: seq<Op>)
    requires Inv(s) && Enabled(s, SleepOp(ms)) && 0 < ms < U32 && s.clock < U32
    requires Sleep(s, ms).cur < |Sleep(s, ms).tasks| && AllEnabled(Sleep(s, ms), ops)
    requires Ticks(ops) == TicksFor(ms) - 1
    ensures var u, r := Sleep(s, ms), Run(Sleep(s, ms), ops);
      (StaysBlocked(u, ops, s.cur) && s.cur < |Tick(r).tasks| && Tick(r).tasks[s.cur].Runnable())
      <==> OnTime(s.clock, ms)
  {
    var u, r := Sleep(s, ms), Run(Sleep(s, ms), ops);
    SleepBlocks(s, ms);
    StillAsleep(u, ops, s.cur);
    ReachedOnTime(s.clock, ms);
    if StaysBlocked(u, ops, s.cur) {
      TickSleeper(r, s.cur);
      RunClock(u, ops);
      ClockThen(s.clock, Ticks(ops));
    }
  }

  lemma ClockThen(clock: nat, k: nat)
    ensures ClockAfter(ClockAfter(clock, k), 1) == ClockAfter(clock, k + 1)
  {
    var x := clock + TICK_MS * k;
    assert x == U32 * (x / U32) + x % U32;
    ModShift(x % U32 + TICK_MS, x / U32);
  }

  lemma TickSleeper(r: Sched, j: nat)
    requires Inv(r) && j < |r.tasks| && r.tasks[j].state == Blocked
    ensures j < |Tick(r).tasks|
    ensures Tick(r).tasks[j].Runnable() <==> ClockAfter(r.clock, 1) >= r.tasks[j].wake
  {
    TickOther(r, j);
    StepClock(r, TickOp);
  }

  // A sleep of more than one tick ends on the very next tick exactly when its wake-up time
  // wraps at 32 bits and the clock does not wrap at that tick.
  lemma SleepEndsEarlyIffWrapped(s: Sched, ms: nat)
    requires Inv(s) && Enabled(s, SleepOp(ms)) && TICK_MS < ms < U32 && s.clock < U32
    ensures var u := Sleep(s, ms);
      && u.cur < |u.tasks| && s.cur < |Tick(u).tasks|
      && (Tick(u).tasks[s.cur].state != Blocked <==> s.clock + TICK_MS < U32 <= s.clock + ms)
  {
    var u := Sleep(s, ms);
    SleepBlocks(s, ms);
    TickSleeper(u, s.cur);
    StepSleeper(u, TickOp, s.cur);
    WrapOnce(s.clock + ms);
    WrapOnce(s.clock + TICK_MS);
  }

  lemma MissedOnClock(clock: nat, ms: nat)
    requires 0 < ms && clock + ms < U32
    ensures var n := TicksFor(ms);
      NotReached(clock, clock + ms, n - 1)
      && (ClockAfter(clock, n) < clock + ms <==> clock + TICK_MS * n >= U32)
  {
    WrapOnce(clock + TICK_MS * TicksFor(ms));
    forall k: nat | 1 <= k <= TicksFor(ms) - 1
      ensures ClockAfter(clock, k) < clock + ms
    {
      WrapOnce(clock + TICK_MS * k);
    }
  }

  // A wake-up time in the last milliseconds before the clock wraps is missed: when no clock
  // value lies between it and 2^32, the sleeper is still blocked after the tick that passes it.
  lemma SleepMissedIffNoTickLeft(s: Sched, ms: nat, ops: seq<Op>)
    requires Inv(s) && Enabled(s, SleepOp(ms)) && 0 < ms && s.clock + ms < U32
    requires Sleep(s, ms).cur < |Sleep(s, ms).tasks| && AllEnabled(Sleep(s, ms), ops)
    requires Ticks(ops) == TicksFor(ms) - 1
    ensures var r := Run(Sleep(s, ms), ops);
      && s.cur < |r.tasks| && r.tasks[s.cur].state == Blocked && s.cur < |Tick(r).tasks|
      && (Tick(r).tasks[s.cur].state == Blocked <==> s.clock + TICK_MS * TicksFor(ms) >= U32)
  {
    hide Tick, Run, Sleep, Schedule, TicksFor, ClockAfter, StaysBlocked;
    var u, r := Sleep(s, ms), Run(Sleep(s, ms), ops);
    SleepBlocks(s, ms);
    StillAsleep(u, ops, s.cur);
    RunClock(u, ops);
    ClockThen(s.clock, Ticks(ops));
    MissedOnClock(s.clock, ms);
    WrapOnce(s.clock + ms);
    TickSleeper(r, s.cur);
    StepSleeper(r, TickOp, s.cur);
  }
}
