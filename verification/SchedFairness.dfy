/** Runs of the scheduler: slices stay within bounds in every reachable state, and a task that
    stays RUNNING waits for a bounded number of timer ticks. */
module SchedFairness {
  import opened Scheduler
  import opened TaskStates

  /** What can happen to the scheduler's state between two instants. `Alter` stands for
      sleeping, waking, exiting, signals, alarms and masks: anything but a change of slice or
      priority. `Switch` is any call of schedule() outside the timer. */
  datatype Event =
    | Tick(user: bool)
    | Switch
    | Alter(slot: nat, t: Tcb)
    | Release(slot: nat)
    | Fork(slot: nat)

  ghost predicate Good(s: State) {
    Sane(s.task) && s.current < 64 && s.task[s.current].Used?
  }

  ghost predicate Enabled(s: State, e: Event)
    requires Good(s)
  {
    match e
    case Tick(_) => true
    case Switch => true
    case Alter(i, t) => i < 64 && s.task[i].Used? && t.counter == s.task[i].t.counter
      && t.priority == s.task[i].t.priority
    case Release(i) => 1 <= i < 64 && i != s.current && s.task[i].Used?
    case Fork(i) => 1 <= i < 64 && s.task[i].Null?
  }

  /** The child of copy_process: a full slice, nothing pending. */
  function Child(t: Tcb): Tcb {
    t.(state := RUNNING, counter := t.priority, signal := {}, alarm := 0, utime := 0, stime := 0)
  }

  ghost function Next(s: State, e: Event): State
    requires Good(s) && Enabled(s, e)
  {
    match e
    case Tick(user) => Timer(s, user)
    case Switch => Reschedule(s)
    case Alter(i, t) => s.(task := s.task[i := Used(t)])
    case Release(i) => s.(task := s.task[i := Null])
    case Fork(i) => s.(task := s.task[i := Used(Child(s.task[s.current].t))])
  }

  /** The child of a fork starts RUNNING with a full slice, no pending signal, no alarm and no time
      used, with the priority and the blocked signals of its parent; no other task and not the
      choice of the current one changes. */
  lemma ForkStarts(s: State, i: nat)
    requires Good(s) && Enabled(s, Fork(i))
    ensures var u, parent := Next(s, Fork(i)), s.task[s.current].t;
            && |u.task| == 64 && u.current == s.current && u.jiffies == s.jiffies
            && (forall j | 0 <= j < 64 && j != i :: u.task[j] == s.task[j])
            && u.task[i] == Used(Tcb(RUNNING, parent.priority, parent.priority, {}, parent.blocked, 0, 0, 0))
  {
  }

  // ---------- slices stay within bounds ----------

  lemma RescheduleGood(s: State)
    requires Good(s)
    ensures Good(Reschedule(s))
  {
    ScheduleChooses(s.task, s.jiffies);
  }

  lemma ChargedGood(s: State, user: bool)
    requires Good(s)
    ensures Good(Charged(s, user))
  {
  }

  /** Every step keeps each slice between 0 and twice the priority less one. */
  lemma NextGood(s: State, e: Event)
    requires Good(s) && Enabled(s, e)
    ensures Good(Next(s, e))
  {
    match e
    case Tick(user) =>
      ChargedGood(s, user);
      RescheduleGood(Charged(s, user));
    case Switch =>
      RescheduleGood(s);
    case Alter(i, t) =>
    case Release(i) =>
    case Fork(i) =>
  }

  ghost predicate StepsTo(s: State, e: Event, u: State) {
    Good(s) && Enabled(s, e) && u == Next(s, e)
  }

  ghost predicate IsRun(run: seq<State>, events: seq<Event>) {
    && |run| == |events| + 1
    && forall k | 0 <= k < |events| :: StepsTo(run[k], events[k], run[k + 1])
  }

  lemma StepAt(run: seq<State>, events: seq<Event>, k: nat)
    requires IsRun(run, events) && k < |events|
    ensures StepsTo(run[k], events[k], run[k + 1])
  {
  }

  lemma {:induction false} RunGood(run: seq<State>, events: seq<Event>, k: nat)
    requires IsRun(run, events) && Good(run[0]) && k < |run|
    ensures Good(run[k])
  {
    if k > 0 {
      RunGood(run, events, k - 1);
      StepAt(run, events, k - 1);
      NextGood(run[k - 1], events[k - 1]);
    }
  }

  /** In every reachable state, across forks, ticks and recharges, every task has
      0 <= counter <= 2 * priority - 1. */
  lemma SliceBound(run: seq<State>, events: seq<Event>, k: nat, i: nat)
    requires IsRun(run, events) && run[0] == Booted() && k < |run|
    ensures |run[k].task| == 64
    ensures i < 64 && run[k].task[i].Used?
            ==> var t := run[k].task[i].t; 1 <= t.priority && 0 <= t.counter <= 2 * t.priority - 1
  {
    RunGood(run, events, k);
  }

  // ---------- sums ----------

  function Total(v: seq<int>): int {
    if v == [] then 0 else v[0] + Total(v[1..])
  }

  lemma {:induction false} TotalUpdate(v: seq<int>, j: nat, x: int)
    requires j < |v|
    ensures Total(v[j := x]) == Total(v) - v[j] + x
  {
    if j > 0 {
      assert v[j := x][1..] == v[1..][j - 1 := x];
      TotalUpdate(v[1..], j - 1, x);
    } else {
      assert v[j := x][1..] == v[1..];
    }
  }

  lemma {:induction false} TotalMonotone(v: seq<int>, w: seq<int>)
    requires |v| == |w| && forall j | 0 <= j < |v| :: v[j] <= w[j]
    ensures Total(v) <= Total(w)
  {
    if v != [] {
      TotalMonotone(v[1..], w[1..]);
    }
  }

  predicate Counts(ts: seq<Slot>, i: nat, j: nat) {
    j < |ts| && j != 0 && j != i && ts[j].Used?
  }

  /** The slices the tasks other than 0 and i still hold. */
  function Held(ts: seq<Slot>, i: nat): (r: seq<int>)
    ensures |r| == |ts|
    ensures forall j | 0 <= j < |ts| :: r[j] == if Counts(ts, i, j) then ts[j].t.counter else 0
  {
    seq(|ts|, j requires 0 <= j < |ts| => if Counts(ts, i, j) then ts[j].t.counter else 0)
  }

  /** The largest slices they can ever hold. */
  function Most(ts: seq<Slot>, i: nat): (r: seq<int>)
    ensures |r| == |ts|
    ensures forall j | 0 <= j < |ts| :: r[j] == if Counts(ts, i, j) then 2 * ts[j].t.priority - 1 else 0
  {
    seq(|ts|, j requires 0 <= j < |ts| => if Counts(ts, i, j) then 2 * ts[j].t.priority - 1 else 0)
  }

  // ---------- the waiting bound ----------

  /** Task i is RUNNING but does not run. */
  ghost predicate Waits(s: State, i: nat) {
    Good(s) && 1 <= i < 64 && i != s.current && Runs(s.task, i)
  }

  /** Ticks the current task can use up beyond what Held counts. */
  ghost function Extra(s: State): int
    requires Good(s)
  {
    var c := s.task[s.current].t.counter;
    if s.current == 0 then (if c > 1 then c else 1) else if c == 0 then 1 else 0
  }

  /** An upper bound on the user-mode ticks before task i is selected. */
  ghost function Credit(s: State, i: nat): int
    requires Waits(s, i)
  {
    Extra(s) + Total(Held(s.task, i)) + if s.task[i].t.counter == 0 then Total(Most(s.task, i)) else 0
  }

  lemma HeldBounds(ts: seq<Slot>, i: nat)
    requires Sane(ts)
    ensures 0 <= Total(Held(ts, i)) <= Total(Most(ts, i))
  {
    TotalMonotone(Held(ts, i), Most(ts, i));
    TotalMonotone(seq(64, j => 0), Held(ts, i));
    TotalZero(64);
  }

  lemma {:induction false} TotalZero(n: nat)
    ensures Total(seq(n, j => 0)) == 0
  {
    if n > 0 {
      assert seq(n, j => 0)[1..] == seq(n - 1, j => 0);
      TotalZero(n - 1);
    }
  }

  /** Recharging happens only when i, which is RUNNING, has no slice left; i then has one. */
  lemma RechargeHeld(w: seq<Slot>, i: nat)
    requires Sane(w) && 1 <= i < 64 && Runs(w, i) && Best(w, 1).0 == 0
    ensures w[i].t.counter == 0 && Recharge(w)[i].t.counter >= 1
    ensures Most(Recharge(w), i) == Most(w, i)
  {
    BestIsChosen(w, 1);
  }

  lemma WakeHeld(ts: seq<Slot>, jiffies: int, i: nat)
    requires Sane(ts) && 1 <= i < 64 && Runs(ts, i)
    ensures var w := WakeAll(ts, jiffies);
            Sane(w) && Runs(w, i) && w[i].t.counter == ts[i].t.counter && Held(w, i) == Held(ts, i)
              && Most(w, i) == Most(ts, i)
  {
    WakeSane(ts, jiffies);
  }

  /** What a reschedule does to the slices of the others: nothing, or a recharge after i had
      none left. */
  lemma RescheduleHeld(s: State, i: nat)
    requires Waits(s, i) && Good(Reschedule(s))
    ensures var r := Reschedule(s);
            && r.task[i].Used?
            && Most(r.task, i) == Most(s.task, i)
            && ((Held(r.task, i) == Held(s.task, i) && r.task[i].t.counter == s.task[i].t.counter)
                || (s.task[i].t.counter == 0 && r.task[i].t.counter >= 1))
  {
    var w := WakeAll(s.task, s.jiffies);
    WakeHeld(s.task, s.jiffies, i);
    if Best(w, 1).0 == 0 {
      RechargeHeld(w, i);
    }
  }

  lemma RescheduleExtra(s: State, i: nat)
    requires Waits(s, i) && Good(Reschedule(s))
    ensures Extra(Reschedule(s)) == 0
  {
    ScheduleChooses(s.task, s.jiffies);
    WakeHeld(s.task, s.jiffies, i);
  }

  /** Rescheduling spends the whole Extra. */
  lemma RescheduleCredit(s: State, i: nat)
    requires Waits(s, i) && Waits(Reschedule(s), i)
    ensures Credit(Reschedule(s), i) <= Credit(s, i) - Extra(s)
  {
    var r := Reschedule(s);
    RescheduleHeld(s, i);
    RescheduleExtra(s, i);
    HeldBounds(s.task, i);
    HeldBounds(r.task, i);
  }

  lemma ChargedCredit(s: State, user: bool, i: nat)
    requires Waits(s, i)
    ensures Waits(Charged(s, user), i)
    ensures var c, u := s.task[s.current].t.counter, Charged(s, user);
            Credit(u, i) <= if c <= 1 then Credit(s, i) else Credit(s, i) - 1
    ensures s.task[s.current].t.counter <= 1 ==> Extra(Charged(s, user)) == 1
  {
    var t := s.task[s.current].t;
    var u := Charged(s, user);
    var left := if t.counter - 1 > 0 then t.counter - 1 else 0;
    assert Most(u.task, i) == Most(s.task, i);
    if s.current == 0 {
      assert Held(u.task, i) == Held(s.task, i);
    } else {
      assert Held(u.task, i) == Held(s.task, i)[s.current := left];
      TotalUpdate(Held(s.task, i), s.current, left);
    }
  }

  lemma AlterCredit(s: State, e: Event, i: nat)
    requires Waits(s, i) && (e.Alter? || e.Release?) && Enabled(s, e) && Waits(Next(s, e), i)
    ensures Credit(Next(s, e), i) <= Credit(s, i)
  {
    var u := Next(s, e);
    assert e.Alter? ==> Held(u.task, i) == Held(s.task, i) && Most(u.task, i) == Most(s.task, i);
    assert e.Release? ==> forall j | 0 <= j < 64 ::
           Held(u.task, i)[j] <= Held(s.task, i)[j] && Most(u.task, i)[j] <= Most(s.task, i)[j];
    TotalMonotone(Held(u.task, i), Held(s.task, i));
    TotalMonotone(Most(u.task, i), Most(s.task, i));
  }

  /** A user-mode tick costs one unit of credit; nothing but a fork adds any. */
  lemma StepCredit(s: State, e: Event, i: nat)
    requires Waits(s, i) && Enabled(s, e) && !e.Fork? && Waits(Next(s, e), i)
    ensures Credit(Next(s, e), i) + (if e.Tick? && e.user then 1 else 0) <= Credit(s, i)
  {
    match e
    case Tick(user) =>
      ChargedGood(s, user);
      ChargedCredit(s, user, i);
      if user && s.task[s.current].t.counter <= 1 {
        RescheduleCredit(Charged(s, user), i);
      }
    case Switch =>
      RescheduleCredit(s, i);
    case Alter(j, t) =>
      AlterCredit(s, e, i);
    case Release(j) =>
      AlterCredit(s, e, i);
  }

  /** The user-mode ticks among the first k events. */
  function UserTicks(events: seq<Event>, k: nat): nat
    requires k <= |events|
  {
    if k == 0 then 0 else UserTicks(events, k - 1) + Cost(events[k - 1])
  }

  ghost predicate WaitsThroughout(run: seq<State>, i: nat) {
    forall k | 0 <= k < |run| :: Waits(run[k], i)
  }

  lemma CreditOf(s: State, e: Event, u: State, i: nat)
    requires StepsTo(s, e, u) && Waits(s, i) && Waits(u, i) && !e.Fork?
    ensures Credit(u, i) + Cost(e) <= Credit(s, i)
  {
    StepCredit(s, e, i);
  }

  function Cost(e: Event): nat {
    if e == Tick(true) then 1 else 0
  }

  lemma {:induction false} Telescope(credits: seq<int>, events: seq<Event>, k: nat)
    requires |credits| == |events| + 1 && k <= |events|
    requires forall j | 0 <= j < |events| :: credits[j + 1] + Cost(events[j]) <= credits[j]
    ensures UserTicks(events, k) + credits[k] <= credits[0]
  {
    if k > 0 {
      Telescope(credits, events, k - 1);
      assert credits[k - 1 + 1] + Cost(events[k - 1]) <= credits[k - 1];
    }
  }

  lemma RunCredit(run: seq<State>, events: seq<Event>, i: nat)
    requires IsRun(run, events) && WaitsThroughout(run, i)
    requires forall j | 0 <= j < |events| :: !events[j].Fork?
    ensures UserTicks(events, |events|) + Credit(run[|events|], i) <= Credit(run[0], i)
  {
    var credits := seq(|run|, k requires 0 <= k < |run| => Credit(run[k], i));
    forall j | 0 <= j < |events|
      ensures credits[j + 1] + Cost(events[j]) <= credits[j]
    {
      StepAt(run, events, j);
      CreditOf(run[j], events[j], run[j + 1], i);
    }
    Telescope(credits, events, |events|);
  }

  /** The largest number of user-mode ticks a RUNNING task can be kept waiting. */
  ghost function WaitBound(s: State, i: nat): int
    requires Good(s)
  {
    2 * Total(Most(s.task, i)) +
    if s.current != 0 then 0 else if s.task[0].t.counter > 1 then s.task[0].t.counter else 1
  }

  lemma CreditBound(s: State, i: nat)
    requires Waits(s, i)
    ensures 1 <= Credit(s, i) <= WaitBound(s, i)
  {
    HeldBounds(s.task, i);
    var cur := s.current;
    if cur != 0 {
      var h := Held(s.task, i);
      var x := 2 * s.task[cur].t.priority - 1;
      TotalUpdate(h, cur, x);
      TotalMonotone(h[cur := x], Most(s.task, i));
      TotalUpdate(h, cur, 0);
      TotalMonotone(seq(64, j => 0), h[cur := 0]);
      TotalZero(64);
    }
  }

  /** Bounded waiting: over any run of ticks, reschedules, sleeps, wake-ups, signals and exits
      with no fork, a task that stays RUNNING is current at some instant by the time WaitBound
      user-mode ticks have passed. */
  lemma BoundedWaiting(run: seq<State>, events: seq<Event>, i: nat)
    requires IsRun(run, events) && Good(run[0]) && 1 <= i < 64
    requires forall k | 0 <= k < |events| :: !events[k].Fork?
    requires forall k | 0 <= k < |run| :: Runs(run[k].task, i)
    requires UserTicks(events, |events|) >= WaitBound(run[0], i)
    ensures exists k :: 0 <= k < |run| && run[k].current == i
  {
    forall k | 0 <= k < |run|
      ensures Good(run[k])
    {
      RunGood(run, events, k);
    }
    if forall k | 0 <= k < |run| :: run[k].current != i {
      assert WaitsThroughout(run, i);
      RunCredit(run, events, i);
      CreditBound(run[0], i);
      CreditBound(run[|events|], i);
    }
  }
}
