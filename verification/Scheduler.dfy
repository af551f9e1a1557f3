/** kernel/sched.c on values: the choice schedule() makes, the decay of time slices, and the
    timer tick. */
module Scheduler {
  import opened TaskStates
  import opened Counting

  const SIGKILL := 9
  const SIGALRM := 14
  const SIGSTOP := 19

  /** `signal` and `blocked` are the signals whose bits are set. */
  datatype Tcb = Tcb(state: nat, counter: int, priority: int, signal: set<nat>, blocked: set<nat>, alarm: int,
    utime: int, stime: int)

  datatype Slot = Null | Used(t: Tcb)

  // ---------- schedule ----------

  /** A signal that is pending and may wake its receiver. */
  predicate Deliverable(signal: set<nat>, blocked: set<nat>) {
    signal - blocked - {SIGKILL, SIGSTOP} != {}
  }

  function WithAlarm(signal: set<nat>): set<nat> {
    signal + {SIGALRM}
  }

  predicate Expired(t: Tcb, jiffies: int) {
    t.alarm != 0 && t.alarm < jiffies
  }

  /** The first loop: expired alarms become signals, and a deliverable signal wakes an
      interruptible sleeper. */
  function Wakened(t: Tcb, jiffies: int): Tcb {
    var a := if Expired(t, jiffies) then t.(signal := WithAlarm(t.signal), alarm := 0) else t;
    if Deliverable(a.signal, a.blocked) && a.state == INTERRUPTIBLE then a.(state := RUNNING) else a
  }

  function WakeAll(ts: seq<Slot>, jiffies: int): (r: seq<Slot>)
    ensures |r| == |ts|
    ensures forall i | 0 <= i < |ts| :: r[i] == if 1 <= i && ts[i].Used? then Used(Wakened(ts[i].t, jiffies)) else ts[i]
  {
    seq(|ts|, i requires 0 <= i < |ts| => if 1 <= i && ts[i].Used? then Used(Wakened(ts[i].t, jiffies)) else ts[i])
  }

  /** Exactly which tasks schedule() wakes: interruptible sleepers with a pending signal other
      than SIGKILL and SIGSTOP that they do not block, or with an alarm that is over while they
      do not block SIGALRM. SIGKILL and SIGSTOP by themselves wake nobody. An alarm that is over
      is cleared and SIGALRM pending; nothing else about the task changes. */
  lemma WakesExactly(t: Tcb, jiffies: int)
    ensures var over := t.alarm != 0 && t.alarm < jiffies;
            Wakened(t, jiffies) == t.(
              state :=
                if t.state == INTERRUPTIBLE
                   && ((exists x :: x in t.signal && x !in t.blocked && x != SIGKILL && x != SIGSTOP)
                       || (over && SIGALRM !in t.blocked))
                then RUNNING else t.state,
              signal := if over then t.signal + {SIGALRM} else t.signal,
              alarm := if over then 0 else t.alarm)
  {
    SomeSignal(t.signal, t.blocked);
    SomeSignal(WithAlarm(t.signal), t.blocked);
    assert SIGALRM in WithAlarm(t.signal);
  }

  lemma SomeSignal(signal: set<nat>, blocked: set<nat>)
    ensures Deliverable(signal, blocked) <==> exists x :: x in signal && x !in blocked && x != SIGKILL && x != SIGSTOP
  {
    var able := signal - blocked - {SIGKILL, SIGSTOP};
    forall x
      ensures x in able <==> x in signal && x !in blocked && x != SIGKILL && x != SIGSTOP
    {
    }
    if able != {} {
      var x :| x in able;
    }
  }

  predicate Runs(ts: seq<Slot>, i: nat) {
    i < |ts| && ts[i].Used? && ts[i].t.state == RUNNING
  }

  /** The scan from the last slot down to slot k: the best counter so far and its slot. */
  function Best(ts: seq<Slot>, k: nat): (int, nat)
    requires k <= |ts|
    decreases |ts| - k
  {
    if k == |ts| then (-1, 0)
    else
      var (c, next) := Best(ts, k + 1);
      if Runs(ts, k) && ts[k].t.counter > c then (ts[k].t.counter, k) else (c, next)
  }

  /** `(counter >> 1) + priority`; the shift rounds down. */
  function Recharged(t: Tcb): Tcb {
    t.(counter := t.counter / 2 + t.priority)
  }

  function Recharge(ts: seq<Slot>): (r: seq<Slot>)
    ensures |r| == |ts|
    ensures forall i | 0 <= i < |ts| :: r[i] == if 1 <= i && ts[i].Used? then Used(Recharged(ts[i].t)) else ts[i]
  {
    seq(|ts|, i requires 0 <= i < |ts| => if 1 <= i && ts[i].Used? then Used(Recharged(ts[i].t)) else ts[i])
  }

  /** The task table and the slot chosen, when one recharge is enough. */
  function Schedule(ts: seq<Slot>, jiffies: int): (seq<Slot>, nat)
    requires |ts| == 64
  {
    var w := WakeAll(ts, jiffies);
    var (c, next) := Best(w, 1);
    if c != 0 then (w, next) else (Recharge(w), Best(Recharge(w), 1).1)
  }

  /** What fork (counter = priority), ticks and recharges keep of every task. */
  ghost predicate Sane(ts: seq<Slot>) {
    && |ts| == 64 && ts[0].Used?
    && forall i | 0 <= i < 64 && ts[i].Used? ::
       1 <= ts[i].t.priority && 0 <= ts[i].t.counter <= 2 * ts[i].t.priority - 1
  }

  /** (c, n) is the RUNNING task from slot k on with the largest counter, the highest slot
      winning ties; (-1, 0) when there is none. */
  ghost predicate Chosen(ts: seq<Slot>, k: nat, c: int, n: nat) {
    if c == -1 then n == 0 && forall i | k <= i < |ts| :: !Runs(ts, i)
    else
      && k <= n < |ts| && Runs(ts, n) && ts[n].t.counter == c
      && (forall i | k <= i < |ts| && Runs(ts, i) :: ts[i].t.counter <= c)
      && (forall i | n < i < |ts| && Runs(ts, i) :: ts[i].t.counter < c)
  }

  lemma {:induction false} BestIsChosen(ts: seq<Slot>, k: nat)
    requires k <= |ts| && forall i | k <= i < |ts| && ts[i].Used? :: ts[i].t.counter >= 0
    ensures Best(ts, k).0 >= -1 && Chosen(ts, k, Best(ts, k).0, Best(ts, k).1)
    decreases |ts| - k
  {
    if k < |ts| {
      BestIsChosen(ts, k + 1);
    }
  }

  lemma WakeSane(ts: seq<Slot>, jiffies: int)
    requires Sane(ts)
    ensures Sane(WakeAll(ts, jiffies))
  {
  }

  lemma RechargeSane(ts: seq<Slot>)
    requires Sane(ts)
    ensures Sane(Recharge(ts))
    ensures forall i | 1 <= i < 64 && Runs(ts, i) :: Recharge(ts)[i].t.counter >= 1
  {
  }

  /** Some task is RUNNING and no RUNNING task has any slice left. */
  ghost predicate Exhausted(ts: seq<Slot>) {
    && (exists i :: 1 <= i < 64 && Runs(ts, i))
    && (forall i | 1 <= i < 64 && Runs(ts, i) :: ts[i].t.counter == 0)
  }

  /** schedule() recharges once if every RUNNING task has used up its slice, and otherwise leaves
      all slices alone; it then picks the RUNNING task with the largest counter, which is
      positive, and falls back to slot 0 exactly when none of the slots 1..63 is RUNNING. */
  lemma ScheduleChooses(ts: seq<Slot>, jiffies: int)
    requires Sane(ts)
    ensures var (r, n) := Schedule(ts, jiffies);
            && Sane(r) && n < 64 && r[n].Used?
            && (n == 0 <==> forall i | 1 <= i < 64 :: !Runs(WakeAll(ts, jiffies), i))
            && (n != 0 ==> r[n].t.counter >= 1 && Chosen(r, 1, r[n].t.counter, n))
    ensures var w := WakeAll(ts, jiffies); Schedule(ts, jiffies).0 == if Exhausted(w) then Recharge(w) else w
    ensures Best(Schedule(ts, jiffies).0, 1).0 != 0
  {
    var w := WakeAll(ts, jiffies);
    WakeSane(ts, jiffies);
    BestIsChosen(w, 1);
    BestZero(w);
    RechargeSane(w);
    BestIsChosen(Recharge(w), 1);
    assert forall i | 0 <= i < 64 :: Runs(Recharge(w), i) == Runs(w, i);
  }

  // ---------- when the loop does not end ----------

  function RechargeTimes(ts: seq<Slot>, k: nat): (r: seq<Slot>)
    ensures |r| == |ts|
  {
    if k == 0 then ts else Recharge(RechargeTimes(ts, k - 1))
  }

  ghost predicate NonNegative(ts: seq<Slot>) {
    |ts| == 64 && forall i | 1 <= i < 64 && ts[i].Used? :: ts[i].t.priority >= 0 && ts[i].t.counter >= 0
  }

  ghost predicate Powerless(ts: seq<Slot>) {
    && (exists i :: 1 <= i < 64 && Runs(ts, i))
    && (forall i | 1 <= i < 64 && Runs(ts, i) :: ts[i].t.counter == 0 && ts[i].t.priority == 0)
  }

  lemma BestZero(ts: seq<Slot>)
    requires NonNegative(ts)
    ensures Best(ts, 1).0 == 0 <==> Exhausted(ts)
  {
    BestIsChosen(ts, 1);
    var (c, n) := Best(ts, 1);
    if c == 0 {
      assert Runs(ts, n);
    }
  }

  lemma {:induction false} StaysPowerless(ts: seq<Slot>, k: nat)
    requires NonNegative(ts) && Powerless(ts)
    ensures NonNegative(RechargeTimes(ts, k)) && Powerless(RechargeTimes(ts, k))
  {
    if k > 0 {
      StaysPowerless(ts, k - 1);
      var p := RechargeTimes(ts, k - 1);
      var i :| 1 <= i < 64 && Runs(p, i);
      assert Runs(Recharge(p), i);
      assert forall j | 1 <= j < 64 :: Runs(Recharge(p), j) == Runs(p, j);
    }
  }

  /** The `while(1)` of schedule() ends if and only if some RUNNING task has a priority or a
      slice left, or none is RUNNING; one recharge is then enough. */
  lemma LoopEnds(ts: seq<Slot>)
    requires NonNegative(ts)
    ensures (exists k: nat :: Best(RechargeTimes(ts, k), 1).0 != 0) <==> !Powerless(ts)
    ensures !Powerless(ts) ==> Best(ts, 1).0 != 0 || Best(Recharge(ts), 1).0 != 0
  {
    if Powerless(ts) {
      forall k: nat
        ensures Best(RechargeTimes(ts, k), 1).0 == 0
      {
        StaysPowerless(ts, k);
        BestZero(RechargeTimes(ts, k));
      }
    } else {
      BestZero(ts);
      BestZero(Recharge(ts));
      assert RechargeTimes(ts, 0) == ts;
      assert RechargeTimes(ts, 1) == Recharge(ts);
      assert forall j | 1 <= j < 64 :: Runs(Recharge(ts), j) == Runs(ts, j);
      assert Best(RechargeTimes(ts, 0), 1).0 != 0 || Best(RechargeTimes(ts, 1), 1).0 != 0;
    }
  }

  /** The loop of schedule() as run: it ends at the state and slot `Schedule` gives. */
  lemma OneRecharge(ts: seq<Slot>, jiffies: int)
    requires NonNegative(ts) && !Powerless(WakeAll(ts, jiffies))
    ensures var w := WakeAll(ts, jiffies);
            && Schedule(ts, jiffies) == (if Best(w, 1).0 != 0 then (w, Best(w, 1).1)
               else (Recharge(w), Best(Recharge(w), 1).1))
            && (Best(w, 1).0 != 0 || Best(Recharge(w), 1).0 != 0)
  {
    LoopEnds(WakeAll(ts, jiffies));
  }

  lemma SlotInRange(ts: seq<Slot>, jiffies: int)
    requires NonNegative(ts)
    ensures var (r, n) := Schedule(ts, jiffies); n < 64 && (ts[0].Used? ==> r[n].Used?)
  {
    var w := WakeAll(ts, jiffies);
    BestIsChosen(w, 1);
    BestIsChosen(Recharge(w), 1);
  }

  // ---------- decay ----------

  function RechargedTimes(t: Tcb, k: nat): Tcb {
    if k == 0 then t else Recharged(RechargedTimes(t, k - 1))
  }

  lemma {:induction false} MulMonotone(q: nat, a: nat, b: nat)
    requires b <= a
    ensures q * b <= q * a
  {
    if b < a {
      MulMonotone(q, a - 1, b);
      assert q * a == q * (a - 1) + q;
    }
  }

  lemma DivideExact(d: nat, q: nat, b: nat, r: nat)
    requires q >= 1 && d == q * b + r && r < q
    ensures d / q == b
  {
    var x := d / q;
    assert d == q * x + d % q;
    assert q * (b + 1) == q * b + q && q * (x + 1) == q * x + q;
    if x > b {
      MulMonotone(q, x, b + 1);
    } else if x < b {
      MulMonotone(q, b, x + 1);
    }
  }

  lemma HalveQuotient(d: nat, q: nat)
    requires q >= 1
    ensures d / (2 * q) == d / q / 2
  {
    var a, r := d / q, d % q;
    var b, s := a / 2, a % 2;
    assert d == q * (2 * b + s) + r == 2 * q * b + (q * s + r);
    assert 0 <= q * s + r < 2 * q;
    DivideExact(d, 2 * q, b, q * s + r);
  }

  /** A task that does not run approaches twice its priority: its distance from 2p - 1 is
      halved, rounding down, at every recharge, and nothing else about it changes. */
  lemma {:induction false} Decay(t: Tcb, k: nat)
    requires t.counter <= 2 * t.priority - 1
    ensures RechargedTimes(t, k) ==
              t.(counter := 2 * t.priority - 1 - (2 * t.priority - 1 - t.counter) / Pow2(k))
  {
    if k > 0 {
      Decay(t, k - 1);
      HalveQuotient(2 * t.priority - 1 - t.counter, Pow2(k - 1));
    }
  }

  // ---------- the timer ----------

  /** The state the timer and the scheduler work on; `current` is a slot number. */
  datatype State = State(task: seq<Slot>, current: nat, jiffies: int)

  /** The state sched_init leaves: task 0 alone, with 15 ticks left. */
  function Booted(): State {
    State([Used(Tcb(RUNNING, 15, 15, {}, {}, 0, 0, 0))] + seq(63, i => Null), 0, 0)
  }

  function Reschedule(s: State): State
    requires |s.task| == 64
  {
    var (r, n) := Schedule(s.task, s.jiffies);
    State(r, n, s.jiffies)
  }

  /** The current task pays for the tick. */
  function Charged(s: State, user: bool): State
    requires |s.task| == 64 && s.current < 64 && s.task[s.current].Used?
  {
    var t := s.task[s.current].t;
    var timed := if user then t.(utime := t.utime + 1) else t.(stime := t.stime + 1);
    State(s.task[s.current := Used(timed.(counter := if t.counter - 1 > 0 then t.counter - 1 else 0))], s.current,
      s.jiffies + 1)
  }

  /** timer_interrupt and do_timer; in kernel mode an exhausted slice does not reschedule. */
  function Timer(s: State, user: bool): State
    requires |s.task| == 64 && s.current < 64 && s.task[s.current].Used?
  {
    if s.task[s.current].t.counter - 1 > 0 || !user then Charged(s, user) else Reschedule(Charged(s, user))
  }

  /** One more tick has passed and the current task, which is still current, has paid for it: one
      unit of its slice, if it had any left, and one tick of user or system time. */
  ghost predicate Paid(s: State, v: State, user: bool) {
    && |s.task| == 64 == |v.task| && v.current == s.current < 64 && v.jiffies == s.jiffies + 1
    && (forall i | 0 <= i < 64 && i != s.current :: v.task[i] == s.task[i])
    && s.task[s.current].Used? && v.task[s.current].Used?
    && var t, p := s.task[s.current].t, v.task[s.current].t;
       && p.counter == (if t.counter > 0 then t.counter - 1 else 0)
       && p.utime == (if user then t.utime + 1 else t.utime)
       && p.stime == (if user then t.stime else t.stime + 1)
       && p.state == t.state && p.priority == t.priority && p.alarm == t.alarm
       && p.signal == t.signal && p.blocked == t.blocked
  }

  /** What a tick does. In kernel mode the current task pays and stays current, even if that was
      the last of its slice. In user mode the same happens, and then schedule() runs if and only
      if at most one unit of the slice was left. */
  lemma TickIs(s: State, user: bool) returns (v: State)
    requires |s.task| == 64 && s.current < 64 && s.task[s.current].Used?
    ensures Paid(s, v, user)
    ensures !user || s.task[s.current].t.counter > 1 ==> Timer(s, user) == v
    ensures user && s.task[s.current].t.counter <= 1 ==>
              Timer(s, user) == State(Schedule(v.task, v.jiffies).0, Schedule(v.task, v.jiffies).1, v.jiffies)
  {
    v := Charged(s, user);
  }

  // ---------- the end of a system call ----------

  /** The test before ret_from_syscall: a task that is no longer RUNNING, or has no slice left,
      gives up the processor. */
  function SyscallEnd(s: State): State
    requires |s.task| == 64 && s.current < 64 && s.task[s.current].Used?
  {
    var t := s.task[s.current].t;
    if t.state != RUNNING || t.counter == 0 then Reschedule(s) else s
  }

  /** So every system call returns to a RUNNING task with a slice left, or to task 0 because no
      other is RUNNING; if the caller is such a task itself, it goes on and nothing changes. */
  lemma SyscallEndRuns(s: State)
    requires Sane(s.task) && s.current < 64 && s.task[s.current].Used?
    ensures var u := SyscallEnd(s);
            && |u.task| == 64 && u.current < 64 && u.task[u.current].Used? && u.jiffies == s.jiffies
            && ((u.current == 0 && forall i | 1 <= i < 64 :: !Runs(u.task, i))
                || (Runs(u.task, u.current) && u.task[u.current].t.counter >= 1))
            && (Runs(s.task, s.current) && s.task[s.current].t.counter >= 1 ==> u == s)
  {
    ScheduleChooses(s.task, s.jiffies);
    var w := WakeAll(s.task, s.jiffies);
    assert forall i | 0 <= i < 64 :: Runs(Recharge(w), i) == Runs(w, i);
  }
}
