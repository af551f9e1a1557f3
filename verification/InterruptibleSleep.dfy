/** interruptible_sleep_on (kernel/sched.c) in place: the queue head, the caller's `tmp` and the task
    states are overwritten one by one. */
module InterruptibleSleep {
  import opened TaskStates
  import opened InterruptibleQueue
  import W = WaitQueue

  /** The queue head, the suspended calls and the task states as the kernel keeps them. */
  class SignalQueue {
    var head: W.Link
    var saved: map<nat, W.Link>
    const state: array<nat>

    constructor (tasks: nat)
      ensures fresh(state) && View() == W.Queue(W.Nil, map[], seq(tasks, i => RUNNING))
    {
      head, saved := W.Nil, map[];
      state := new nat[tasks](i => RUNNING);
      new;
      assert state[..] == seq(tasks, i => RUNNING);
    }

    function View(): W.Queue
      reads this, state
    {
      W.Queue(head, saved, state[..])
    }

    /** interruptible_sleep_on by task `current`, up to the first call of schedule(). */
    method SleepOn(current: nat)
      requires Enabled(View(), Event.Sleep(current))
      modifies this, state
      ensures View() == Next(old(View()), Event.Sleep(current))
    {
      var tmp := head;
      head := W.To(current);
      state[current] := INTERRUPTIBLE;
      saved := saved[current := tmp];
    }

    /** From the return of schedule() to its next call at rep_label, or to the end. */
    method GoOn(current: nat) returns (again: bool)
      requires Enabled(View(), Event.Resume(current))
      modifies this, state
      ensures View() == Next(old(View()), Event.Resume(current)) && again == Retries(old(View()), current)
      ensures again <==> current in saved
    {
      if head.To? && head.task != current {
        if head.task < state.Length {
          state[head.task] := RUNNING;
        }
        state[current] := INTERRUPTIBLE;
        return true;
      }
      var tmp := saved[current];
      saved := saved - {current};
      head := tmp;
      if tmp.To? && tmp.task < state.Length {
        state[tmp.task] := RUNNING;
      }
      again := false;
    }
  }
}
