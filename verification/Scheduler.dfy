// The scheduler as task.c, pic.c and syscall.c write it: a singly linked task list, a
// current-task pointer and a clock, updated in place. Each method is proved to do to the
// list what the corresponding function of SchedulerModel does to its value.
module Scheduler {
  import opened Basics
  import opened SchedulerModel

  const LOW_TASK: nat := 5

  class Task {
    var state: TaskState
    var priority: nat
    var timeSlice: nat
    var wakeTick: nat
    var next: Task?

    constructor (priority: nat)
      ensures Value() == Tcb(Ready, priority, priority, 0) && next == null
    {
      state, timeSlice, wakeTick, next := Ready, priority, 0, null;
      this.priority := priority;
    }

    function Value(): Tcb
      reads this
    {
      Tcb(state, priority, timeSlice, wakeTick)
    }
  }

  class TaskList {
    var task: Task
    var currentTask: Task
    var timerMs: nat
    ghost var list: seq<Task>   // the tasks in list order
    ghost var tcbs: seq<Tcb>    // their values
    ghost var cur: nat          // the position of currentTask

    ghost predicate Valid()
      reads this, list
    {
      && cur < |list| == |tcbs|
      && task == list[0] && currentTask == list[cur]
      && timerMs < U32
      && (forall i :: 0 <= i < |list| ==> list[i].Value() == tcbs[i])
      && (forall i, j :: 0 <= i < j < |list| ==> list[i] != list[j])
      && (forall i {:trigger list[i].next} :: 0 <= i < |list| ==>
            list[i].next == if i + 1 < |list| then list[i+1] else null)
    }

    ghost function View(): Sched
      reads this
    {
      Sched(tcbs, cur, timerMs)
    }

    // init_task.
    constructor ()
      ensures Valid() && fresh(list) && View() == Init()
    {
      var idle := new Task(LOW_TASK);
      task, currentTask, timerMs := idle, idle, 0;
      list, tcbs, cur := [idle], [Tcb(Ready, LOW_TASK, LOW_TASK, 0)], 0;
    }

    // create_task: the new task goes to the end of the list.
    method CreateTask(priority: nat) returns (t: Task)
      requires Valid()
      modifies this`list, this`tcbs, list
      ensures Valid() && fresh(t) && list == old(list) + [t]
      ensures View() == Create(old(View()), priority)
    {
      t := new Task(priority);
      var curr := task;
      ghost var i := 0;
      while curr.next != null
        invariant i < |list| && curr == list[i]
        decreases |list| - i
      {
        curr := curr.next;
        i := i + 1;
      }
      curr.next := t;
      list := list + [t];
      tcbs := tcbs + [Tcb(Ready, priority, priority, 0)];
    }

    method SetState(t: Task, state: TaskState, ghost i: nat)
      requires Valid() && i < |list| && list[i] == t
      modifies this`tcbs, t`state
      ensures Valid() && tcbs == old(tcbs)[i := old(tcbs)[i].(state := state)]
    {
      t.state := state;
      tcbs := tcbs[i := tcbs[i].(state := state)];
    }

    // One move of the walk: the next task in the list, or the head of the list.
    method Advance()
      requires Valid()
      modifies this`cur, this`currentTask
      ensures Valid() && cur == Ahead(|list|, old(cur), 1)
    {
      cur := if currentTask.next == null then 0 else cur + 1;
      currentTask := if currentTask.next == null then task else currentTask.next;
    }

    // The do-while loop of schedule(). The idle task can always run, so the walk is back at
    // its start only when that task can run, and the halting loop there is not entered.
    method WalkToRunnable()
      requires Valid() && Ahead(|tcbs|, cur, Skips(tcbs, cur, 1)) < |tcbs|
      requires tcbs[Ahead(|tcbs|, cur, Skips(tcbs, cur, 1))].Runnable()
      modifies this`cur, this`currentTask
      ensures Valid() && cur == Ahead(|tcbs|, old(cur), Skips(tcbs, old(cur), 1))
    {
      var start := currentTask;
      ghost var from, d := cur, 0;
      while true
        invariant Valid() && from == old(cur)
        invariant d < Skips(tcbs, from, 1) && cur == Ahead(|tcbs|, from, d)
        decreases |tcbs| - d
      {
        Advance();
        d := d + 1;
        assert cur == Ahead(|tcbs|, from, d) && currentTask.Value() == tcbs[cur];
        assert currentTask == start ==> currentTask.Value().Runnable();
        if currentTask.state != Completed && currentTask.state != Blocked {
          assert d == Skips(tcbs, from, 1);
          break;
        }
      }
    }

    // schedule(), without the switch of stacks.
    method Schedule()
      requires Valid() && Sound(View())
      modifies this`tcbs, this`cur, this`currentTask, list
      ensures Valid() && View() == SchedulerModel.Schedule(old(View()))
    {
      var prev := currentTask;
      if prev.state != Completed && prev.state != Blocked {
        SetState(prev, Paused, cur);
      }
      assert tcbs == old(tcbs)[cur := Yielded(old(tcbs)[cur])];
      IdleStops(old(View()));
      WalkToRunnable();
      SetState(currentTask, Running, cur);
    }

    // timer_irq0_handler.
    method TimerTick()
      requires Valid() && Inv(View())
      modifies this`timerMs, this`tcbs, this`cur, this`currentTask, list
      ensures Valid() && View() == Tick(old(View()))
    {
      timerMs := (timerMs + TICK_MS) % U32;
      WakeTasks();
      var slice := currentTask.timeSlice;
      if slice > 0 {
        slice := slice - 1;
      }
      SetSlice(slice);
      if currentTask.timeSlice == 0 {
        SetSlice(currentTask.priority);
        assert View() == Counted(old(View()));
        CountedSound(old(View()));
        Schedule();
      }
    }

    method SetSlice(slice: nat)
      requires Valid()
      modifies this`tcbs, currentTask`timeSlice
      ensures Valid() && tcbs == old(tcbs)[cur := old(tcbs)[cur].(slice := slice)]
    {
      currentTask.timeSlice := slice;
      tcbs := tcbs[cur := tcbs[cur].(slice := slice)];
    }

    // The wake-up loop of the timer interrupt.
    method WakeTasks()
      requires Valid()
      modifies this`tcbs, list
      ensures Valid() && tcbs == WakeAll(old(tcbs), timerMs)
    {
      var t: Task? := task;
      ghost var i := 0;
      while t != null
        invariant Valid() && i <= |list| && t == if i < |list| then list[i] else null
        invariant |tcbs| == |old(tcbs)|
        invariant forall k :: 0 <= k < |tcbs| ==>
          tcbs[k] == if k < i then Woken(old(tcbs)[k], timerMs) else old(tcbs)[k]
        decreases |list| - i
      {
        if t.state == Blocked && timerMs >= t.wakeTick {
          SetState(t, Ready, i);
        }
        t := t.next;
        i := i + 1;
      }
    }

    // syscall_sleep.
    method Sleep(ms: nat)
      requires Valid() && Inv(View()) && Enabled(View(), SleepOp(ms))
      modifies this`tcbs, this`cur, this`currentTask, list
      ensures Valid() && View() == SchedulerModel.Sleep(old(View()), ms)
    {
      if ms == 0 {
        return;
      }
      SetWake((timerMs + ms) % U32);
      SetState(currentTask, Blocked, cur);
      assert View() == Slept(old(View()), ms);
      UpdateSound(old(View()), tcbs[cur]);
      Schedule();
    }

    method SetWake(wake: nat)
      requires Valid()
      modifies this`tcbs, currentTask`wakeTick
      ensures Valid() && tcbs == old(tcbs)[cur := old(tcbs)[cur].(wake := wake)]
    {
      currentTask.wakeTick := wake;
      tcbs := tcbs[cur := tcbs[cur].(wake := wake)];
    }

    // syscall_exit.
    method Exit()
      requires Valid() && Inv(View()) && Enabled(View(), ExitOp)
      modifies this`tcbs, this`cur, this`currentTask, list
      ensures Valid() && View() == SchedulerModel.Exit(old(View()))
    {
      SetState(currentTask, Completed, cur);
      Schedule();
    }
  }

  // The idle task ends the walk within one round of the ring.
  lemma IdleStops(s: Sched)
    requires Sound(s)
    ensures var ts := s.tasks[s.cur := Yielded(s.tasks[s.cur])];
      ts[Ahead(|ts|, s.cur, Skips(ts, s.cur, 1))].Runnable()
  {
    var n := |s.tasks|;
    assert Ahead(n, s.cur, if s.cur == 0 then n else n - s.cur) == 0;
  }
}
