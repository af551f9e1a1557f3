/** kernel/sched.c in place: task_struct objects reached through the task array, rewritten by
    the loops of schedule() and by do_timer(). */
module SchedulerTable {
  import opened Scheduler
  import opened TaskStates

  class TaskStruct {
    var state: nat
    var counter: int
    var priority: int
    var signal: set<nat>
    var blocked: set<nat>
    var alarm: int
    var utime: int
    var stime: int

    constructor (counter: int, priority: int)
      ensures View() == Tcb(RUNNING, counter, priority, {}, {}, 0, 0, 0)
    {
      this.state, this.counter, this.priority := RUNNING, counter, priority;
      this.signal, this.blocked, this.alarm, this.utime, this.stime := {}, {}, 0, 0, 0;
    }

    function View(): Tcb
      reads this
    {
      Tcb(state, counter, priority, signal, blocked, alarm, utime, stime)
    }

    /** The body of the first loop of schedule(). */
    method CheckSignals(jiffies: int)
      modifies this
      ensures View() == Wakened(old(View()), jiffies)
    {
      if alarm != 0 && alarm < jiffies {
        signal := WithAlarm(signal);
        alarm := 0;
      }
      if Deliverable(signal, blocked) && state == INTERRUPTIBLE {
        state := RUNNING;
      }
    }
  }

  class TaskVector {
    const task: array<TaskStruct?>
    var current: nat
    var jiffies: int

    constructor ()
      ensures Valid() && fresh(task) && fresh(Tasks())
      ensures View() == Booted()
    {
      var first := new TaskStruct(15, 15);
      task := new TaskStruct?[64](i => null);
      current, jiffies := 0, 0;
      new;
      task[0] := first;
    }

    ghost predicate Valid()
      reads this, task
    {
      Distinct() && current < 64 && task[current] != null
    }

    ghost predicate Distinct()
      reads task
    {
      && task.Length == 64
      && forall i, j | 0 <= i < j < 64 && task[i] != null :: task[i] != task[j]
    }

    ghost function Tasks(): set<TaskStruct>
      reads task
    {
      set i | 0 <= i < task.Length && task[i] != null :: task[i]
    }

    ghost function SlotAt(i: nat): Slot
      requires i < task.Length
      reads task, task[i]
    {
      if task[i] == null then Null else Used(task[i].View())
    }

    ghost function Slots(): (r: seq<Slot>)
      reads task, Tasks()
      ensures |r| == task.Length && forall i | 0 <= i < task.Length :: r[i] == SlotAt(i)
    {
      seq(task.Length, i requires 0 <= i < task.Length reads task, Tasks() => SlotAt(i))
    }

    ghost function View(): State
      reads this, task, Tasks()
    {
      State(Slots(), current, jiffies)
    }

    /** The first loop of schedule(): expired alarms and deliverable signals. */
    method WakeSleepers()
      requires Distinct()
      modifies Tasks()
      ensures Slots() == WakeAll(old(Slots()), jiffies)
    {
      var p := 63;
      while p > 0
        invariant 0 <= p <= 63
        invariant forall j | 0 <= j < 64 ::
                  SlotAt(j) == if p < j then WakeAll(old(Slots()), jiffies)[j] else old(SlotAt(j))
      {
        var t := task[p];
        assert SlotAt(p) == old(SlotAt(p));
        if t != null {
          t.CheckSignals(jiffies);
        }
        p := p - 1;
      }
    }

    /** The inner scan of schedule(). */
    method FindBest() returns (c: int, next: nat)
      requires Distinct()
      ensures (c, next) == Best(Slots(), 1)
    {
      c, next := -1, 0;
      var i := 63;
      while i > 0
        invariant 0 <= i <= 63
        invariant (c, next) == Best(Slots(), i + 1)
      {
        var t := task[i];
        if t != null && t.state == RUNNING && t.counter > c {
          c, next := t.counter, i;
        }
        i := i - 1;
      }
    }

    method RechargeAll()
      requires Distinct()
      modifies Tasks()
      ensures Slots() == Recharge(old(Slots()))
    {
      var p := 63;
      while p > 0
        invariant 0 <= p <= 63
        invariant forall j | 0 <= j < 64 :: SlotAt(j) == if p < j then Recharge(old(Slots()))[j] else old(SlotAt(j))
      {
        var t := task[p];
        assert SlotAt(p) == old(SlotAt(p));
        if t != null {
          t.counter := t.counter / 2 + t.priority;
          assert t.View() == Recharged(old(t.View()));
        }
        p := p - 1;
      }
    }

    /** schedule(): its loop ends under exactly the condition of `LoopEnds`, after at most one
        recharge. */
    method Schedule()
      requires Distinct() && NonNegative(Slots()) && !Powerless(WakeAll(Slots(), jiffies))
      modifies this`current, Tasks()
      ensures Slots() == Scheduler.Schedule(old(Slots()), jiffies).0
              && current == Scheduler.Schedule(old(Slots()), jiffies).1
      ensures task[0] != null ==> Valid()
    {
      OneRecharge(Slots(), jiffies);
      SlotInRange(Slots(), jiffies);
      WakeSleepers();
      var next := Choose();
      current := next;
    }

    /** The `while(1)` of schedule(). */
    method Choose() returns (next: nat)
      requires Distinct() && (Best(Slots(), 1).0 != 0 || Best(Recharge(Slots()), 1).0 != 0)
      modifies Tasks()
      ensures var w := old(Slots());
              (Slots(), next) == if Best(w, 1).0 != 0 then (w, Best(w, 1).1) else (Recharge(w), Best(Recharge(w), 1).1)
    {
      var c;
      c, next := FindBest();
      ghost var left := 1;
      while c == 0
        invariant 0 <= left <= 1
        invariant Slots() == if left == 1 then old(Slots()) else Recharge(old(Slots()))
        invariant (c, next) == Best(Slots(), 1)
        invariant left == 0 ==> Best(old(Slots()), 1).0 == 0
        decreases left
      {
        RechargeAll();
        left := left - 1;
        c, next := FindBest();
      }
    }

    /** timer_interrupt and do_timer. A tick in kernel mode never changes the current task. */
    method DoTimer(cpl: nat)
      requires Valid() && Sane(Slots())
      modifies this`current, this`jiffies, Tasks()
      ensures Valid() && View() == Timer(old(View()), cpl != 0)
      ensures cpl == 0 || old(task[current].counter) > 1 ==> Paid(old(View()), View(), cpl != 0)
    {
      jiffies := jiffies + 1;
      var t := task[current];
      if cpl == 0 {
        t.stime := t.stime + 1;
      } else {
        t.utime := t.utime + 1;
      }
      t.counter := t.counter - 1;
      if t.counter > 0 {
        assert View() == Charged(old(View()), cpl != 0);
        return;
      }
      t.counter := 0;
      assert View() == Charged(old(View()), cpl != 0);
      if cpl == 0 {
        return;
      }
      WakeSane(Slots(), jiffies);
      Schedule();
    }

    /** The test at the end of system_call. */
    method EndSyscall()
      requires Valid() && Sane(Slots())
      modifies this`current, Tasks()
      ensures Valid() && View() == SyscallEnd(old(View()))
    {
      var t := task[current];
      if t.state != RUNNING || t.counter == 0 {
        WakeSane(Slots(), jiffies);
        Schedule();
      }
    }
  }
}
