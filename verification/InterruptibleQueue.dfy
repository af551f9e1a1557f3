/** interruptible_sleep_on (kernel/sched.c) when the sleepers are woken by signals, with no
    wake_up in between: the queue behaves as a stack, and after one signal somebody is awake
    until it is empty. */
module InterruptibleQueue {
  import opened TaskStates
  import opened WaitQueue
  import F = SchedFairness
  import S = Scheduler

  /** `Signal` is what the first loop of schedule() does to a suspended task with a deliverable
      signal. The signal stays pending until the task returns to user mode, so this may happen
      again after every retry. */
  datatype Event = Sleep(t: nat) | Signal(t: nat) | Resume(t: nat) | Alter(t: nat, state: nat)

  predicate Enabled(q: Queue, e: Event) {
    match e
    case Sleep(t) => 0 < t < |q.state| && q.state[t] == RUNNING && t !in q.saved
    case Signal(t) => t < |q.state| && t in q.saved
    case Resume(t) => t < |q.state| && q.state[t] == RUNNING && t in q.saved
    case Alter(t, _) => t < |q.state| && t !in q.saved
  }

  /** A resumed task that is not the head wakes the head and sleeps again. */
  predicate Retries(q: Queue, t: nat) {
    q.head.To? && q.head.task != t
  }

  function Next(q: Queue, e: Event): Queue
    requires Enabled(q, e)
  {
    match e
    case Sleep(t) => Queue(To(t), q.saved[t := q.head], q.state[t := INTERRUPTIBLE])
    case Signal(t) => q.(state := q.state[t := RUNNING])
    case Resume(t) => if Retries(q, t) then q.(state := Wake(q.state, q.head)[t := INTERRUPTIBLE]) else Leave(q, t)
    case Alter(t, st) => q.(state := q.state[t := st])
  }

  predicate Legal(q: Queue, events: seq<Event>)
    decreases events
  {
    events == [] || (Enabled(q, events[0]) && Legal(Next(q, events[0]), events[1..]))
  }

  function After(q: Queue, events: seq<Event>): Queue
    requires Legal(q, events)
    decreases events
  {
    if events == [] then q else After(Next(q, events[0]), events[1..])
  }

  /** `list` is the suspended tasks, the last to go to sleep first. */
  ghost predicate Stack(q: Queue, list: seq<nat>) {
    Chain(q, list) && q.head == At(list, 0)
  }

  /** What an event does to the stack: sleeping pushes, and only the top ever leaves. */
  function Stacked(list: seq<nat>, e: Event): seq<nat> {
    match e
    case Sleep(t) => [t] + list
    case Resume(t) => if list != [] && list[0] == t then list[1..] else list
    case _ => list
  }

  function StackedAll(list: seq<nat>, events: seq<Event>): seq<nat>
    decreases events
  {
    if events == [] then list else StackedAll(Stacked(list, events[0]), events[1..])
  }

  lemma PopStep(q: Queue, list: seq<nat>)
    requires Stack(q, list) && list != [] && Enabled(q, Event.Resume(list[0]))
    ensures Next(q, Event.Resume(list[0])) == Leave(q, list[0]) && Stack(Leave(q, list[0]), list[1..])
  {
    ResumeChain(q, list, Leave(q, list[0]));
    assert q.saved[list[0]] == At(list, 0 + 1) == At(list[1..], 0);
  }

  lemma StackStep(q: Queue, list: seq<nat>, e: Event)
    requires Stack(q, list) && Enabled(q, e)
    ensures Stack(Next(q, e), Stacked(list, e))
  {
    match e
    case Sleep(t) => PushChain(q, list, t, Next(q, e));
    case Resume(t) =>
      assert t in list;
      if t == list[0] {
        PopStep(q, list);
      } else {
        assert Retries(q, t);
        assert Chain(Next(q, e), list);
      }
    case Signal(t) => assert Chain(Next(q, e), list);
    case Alter(t, _) => assert Chain(Next(q, e), list);
  }

  // ---------- what a signal can wake ----------

  /** Everybody suspended is awake or sleeps so that a signal can wake it. */
  ghost predicate Wakeable(q: Queue) {
    forall t | t in q.saved :: t < |q.state| && (q.state[t] == RUNNING || q.state[t] == INTERRUPTIBLE)
  }

  lemma {:induction false} StaysWakeable(q: Queue, events: seq<Event>)
    requires Wakeable(q) && Legal(q, events)
    ensures Wakeable(After(q, events))
    decreases events
  {
    if events != [] {
      assert Wakeable(Next(q, events[0]));
      StaysWakeable(Next(q, events[0]), events[1..]);
    }
  }

  /** Over any run without a wake_up, with sleepers arriving and signals sent to anyone at any
      moment, the suspended tasks are a stack: whoever leaves is the last that came. Meanwhile
      each of them is awake or can be woken by a signal. */
  lemma {:induction false} LastInFirstOut(q: Queue, list: seq<nat>, events: seq<Event>)
    requires Stack(q, list) && Legal(q, events)
    ensures Stack(After(q, events), StackedAll(list, events))
    ensures Wakeable(q) ==> Wakeable(After(q, events))
    decreases events
  {
    if events != [] {
      StackStep(q, list, events[0]);
      LastInFirstOut(Next(q, events[0]), Stacked(list, events[0]), events[1..]);
      if Wakeable(q) {
        StaysWakeable(q, events);
      }
    }
  }

  /** Whoever goes to sleep here, for the first time or again after it found another head, sleeps
      interruptibly. One who finds another head leaves that one awake. */
  lemma SleepsInterruptibly(q: Queue, t: nat)
    ensures Enabled(q, Event.Sleep(t)) ==> Next(q, Event.Sleep(t)).state == q.state[t := INTERRUPTIBLE]
    ensures Enabled(q, Event.Resume(t)) && q.head.To? && q.head.task != t && q.head.task < |q.state| ==>
              && Next(q, Event.Resume(t)).state == q.state[q.head.task := RUNNING][t := INTERRUPTIBLE]
              && Next(q, Event.Resume(t)).saved == q.saved
  {
  }

  /** In every run from an empty queue the signal of an event is what schedule() makes of it: for a
      suspended task with a signal that can be delivered, the first loop of schedule() leaves the
      state that `Signal` leaves; without one, and without an alarm that is over, it wakes nobody. */
  lemma SignalIsSchedule(state: seq<nat>, events: seq<Event>, t: nat, p: S.Tcb, jiffies: int)
    requires Legal(Queue(Nil, map[], state), events)
    requires var q := After(Queue(Nil, map[], state), events); t in q.saved && t < |q.state| && p.state == q.state[t]
    ensures var q := After(Queue(Nil, map[], state), events);
            && (S.Deliverable(p.signal, p.blocked) ==>
                  S.Wakened(p, jiffies).state == Next(q, Event.Signal(t)).state[t] == RUNNING)
            && (!S.Deliverable(p.signal, p.blocked) && !S.Expired(p, jiffies) ==>
                  S.Wakened(p, jiffies).state == q.state[t])
  {
    StaysWakeable(Queue(Nil, map[], state), events);
    if S.Deliverable(p.signal, p.blocked) {
      var x :| x in p.signal - p.blocked - {S.SIGKILL, S.SIGSTOP};
      assert x in S.WithAlarm(p.signal) - p.blocked - {S.SIGKILL, S.SIGSTOP};
    }
  }

  // ---------- somebody is awake until the queue is empty ----------

  /** How many of the listed tasks are awake. */
  function Awake(state: seq<nat>, list: seq<nat>): nat {
    if list == [] then 0
    else Awake(state, list[1..]) + if list[0] < |state| && state[list[0]] == RUNNING then 1 else 0
  }

  /** How many more resumes the queue can take. */
  function Credit(q: Queue, list: seq<nat>): nat {
    if list == [] then 0 else |list| + Awake(q.state, list[1..])
  }

  predicate SomeoneAwake(q: Queue, list: seq<nat>) {
    exists i :: 0 <= i < |list| && list[i] < |q.state| && q.state[list[i]] == RUNNING
  }

  lemma {:induction false} AwakeAgrees(s: seq<nat>, u: seq<nat>, list: seq<nat>)
    requires |s| == |u| && forall i | 0 <= i < |list| && list[i] < |s| :: s[list[i]] == u[list[i]]
    ensures Awake(s, list) == Awake(u, list)
  {
    if list != [] {
      forall i | 0 <= i < |list[1..]| && list[1..][i] < |s|
        ensures s[list[1..][i]] == u[list[1..][i]]
      {
        assert list[1..][i] == list[i + 1];
      }
      AwakeAgrees(s, u, list[1..]);
    }
  }

  predicate Distinct(list: seq<nat>) {
    forall i, j | 0 <= i < j < |list| :: list[i] != list[j]
  }

  lemma {:induction false} AwakeOutside(s: seq<nat>, list: seq<nat>, t: nat, v: nat)
    requires t < |s| && t !in list
    ensures Awake(s[t := v], list) == Awake(s, list)
  {
    if list != [] {
      assert list[0] in list && forall x | x in list[1..] :: x in list;
      AwakeOutside(s, list[1..], t, v);
    }
  }

  /** Putting one awake task of the list to sleep lowers the number by one, and waking one
      raises it by one. */
  lemma {:induction false} AwakeChanges(s: seq<nat>, list: seq<nat>, t: nat, v: nat)
    requires t < |s| && t in list && Distinct(list)
    ensures Awake(s[t := v], list) + (if s[t] == RUNNING then 1 else 0)
            == Awake(s, list) + if v == RUNNING then 1 else 0
  {
    var rest := list[1..];
    assert forall i | 0 <= i < |rest| :: rest[i] == list[i + 1];
    if list[0] == t {
      AwakeOutside(s, rest, t, v);
    } else {
      AwakeChanges(s, rest, t, v);
    }
  }

  lemma {:induction false} AwakeBound(s: seq<nat>, list: seq<nat>)
    ensures Awake(s, list) <= |list|
  {
    if list != [] {
      AwakeBound(s, list[1..]);
    }
  }

  /** The head and the rest of a stack. */
  lemma Split(q: Queue, list: seq<nat>)
    requires Stack(q, list) && list != []
    ensures q.head == To(list[0]) && list[0] < |q.state| && list[0] in q.saved
    ensures list[0] !in list[1..] && Distinct(list[1..])
    ensures forall t | t in q.saved && t != list[0] :: t in list[1..]
    ensures q.saved[list[0]] == At(list, 1)
  {
    assert q.saved[list[0]] == At(list, 0 + 1);
    assert forall i | 0 <= i < |list[1..]| :: list[1..][i] == list[i + 1];
    forall t | t in q.saved && t != list[0]
      ensures t in list[1..]
    {
      var j :| 0 <= j < |list| && list[j] == t;
      assert list[1..][j - 1] == t;
    }
  }

  lemma AwakeOne(q: Queue, list: seq<nat>, t: nat)
    requires t in list && t < |q.state| && q.state[t] == RUNNING
    ensures SomeoneAwake(q, list)
  {
    var i :| 0 <= i < |list| && list[i] == t;
    assert q.state[list[i]] == RUNNING;
  }

  lemma RetryCredit(q: Queue, list: seq<nat>, t: nat)
    requires Stack(q, list) && Enabled(q, Event.Resume(t)) && list != [] && list[0] != t
    ensures Credit(Next(q, Event.Resume(t)), list) < Credit(q, list)
    ensures SomeoneAwake(Next(q, Event.Resume(t)), list)
  {
    var u := Next(q, Event.Resume(t));
    Split(q, list);
    var woken := q.state[list[0] := RUNNING];
    assert u.state == woken[t := INTERRUPTIBLE];
    AwakeOutside(q.state, list[1..], list[0], RUNNING);
    AwakeChanges(woken, list[1..], t, INTERRUPTIBLE);
    AwakeOne(u, list, list[0]);
  }

  lemma PopCredit(q: Queue, list: seq<nat>)
    requires Stack(q, list) && list != [] && Enabled(q, Event.Resume(list[0]))
    ensures Credit(Next(q, Event.Resume(list[0])), list[1..]) < Credit(q, list)
    ensures list[1..] == [] || SomeoneAwake(Next(q, Event.Resume(list[0])), list[1..])
  {
    PopStep(q, list);
    Split(q, list);
    if list[1..] != [] {
      NextHead(q, Leave(q, list[0]), list[1..]);
    }
  }

  lemma NextHead(q: Queue, u: Queue, rest: seq<nat>)
    requires rest != [] && Stack(u, rest) && |u.state| == |q.state| && u.state == Wake(q.state, To(rest[0]))
    ensures SomeoneAwake(u, rest) && Awake(u.state, rest[1..]) == Awake(q.state, rest[1..])
  {
    Split(u, rest);
    AwakeOutside(q.state, rest[1..], rest[0], RUNNING);
    AwakeOne(u, rest, rest[0]);
  }

  function Resumes(events: seq<Event>): nat {
    if events == [] then 0 else (if events[0].Resume? then 1 else 0) + Resumes(events[1..])
  }

  function Signals(events: seq<Event>): nat {
    if events == [] then 0 else (if events[0].Signal? then 1 else 0) + Signals(events[1..])
  }

  function Sleeps(events: seq<Event>): nat {
    if events == [] then 0 else (if events[0].Sleep? then 1 else 0) + Sleeps(events[1..])
  }

  /** The queue is empty at some point of the run. */
  ghost predicate Empties(list: seq<nat>, events: seq<Event>)
    decreases events
  {
    list == [] || (events != [] && Empties(Stacked(list, events[0]), events[1..]))
  }

  /** Every resume is paid for by a sleeper or by a signal, whoever joins and whoever is
      signalled; and once anybody on the queue is awake, somebody stays ready to run until all
      are out, those who join meanwhile included. */
  lemma {:induction false} Drains(q: Queue, list: seq<nat>, events: seq<Event>)
    requires Stack(q, list) && Legal(q, events)
    ensures var left := StackedAll(list, events);
            && Stack(After(q, events), left)
            && Resumes(events) + Credit(After(q, events), left)
               <= Credit(q, list) + Signals(events) + 2 * Sleeps(events)
            && (SomeoneAwake(q, list) ==> Empties(list, events) || SomeoneAwake(After(q, events), left))
    decreases events
  {
    if events != [] {
      var e := events[0];
      var u, l := Next(q, e), Stacked(list, e);
      StackStep(q, list, e);
      DrainStep(q, list, e);
      Drains(u, l, events[1..]);
    }
  }

  lemma DrainStep(q: Queue, list: seq<nat>, e: Event)
    requires Stack(q, list) && Enabled(q, e)
    ensures SomeoneAwake(q, list) ==> Stacked(list, e) == [] || SomeoneAwake(Next(q, e), Stacked(list, e))
    ensures (if e.Resume? then 1 else 0) + Credit(Next(q, e), Stacked(list, e))
            <= Credit(q, list) + (if e.Signal? then 1 else 0) + if e.Sleep? then 2 else 0
  {
    match e {
      case Sleep(t) =>
        SleepCredit(q, list, t);
      case Resume(t) =>
        assert t in list;
        if t == list[0] {
          PopCredit(q, list);
        } else {
          RetryCredit(q, list, t);
        }
      case Signal(t) =>
        SignalCredit(q, list, t);
      case Alter(t, st) =>
        AlterCredit(q, list, t, st);
    }
  }

  lemma AlterCredit(q: Queue, list: seq<nat>, t: nat, st: nat)
    requires Stack(q, list) && Enabled(q, Event.Alter(t, st))
    ensures Credit(Next(q, Event.Alter(t, st)), list) == Credit(q, list)
    ensures SomeoneAwake(q, list) ==> SomeoneAwake(Next(q, Event.Alter(t, st)), list)
  {
    var u := Next(q, Event.Alter(t, st));
    if list != [] {
      AwakeAgrees(q.state, u.state, list[1..]);
    }
    if SomeoneAwake(q, list) {
      var i :| 0 <= i < |list| && list[i] < |q.state| && q.state[list[i]] == RUNNING;
      assert u.state[list[i]] == RUNNING;
    }
  }

  /** A task that joins puts nobody to sleep but itself. */
  lemma SleepCredit(q: Queue, list: seq<nat>, t: nat)
    requires Stack(q, list) && Enabled(q, Event.Sleep(t))
    ensures Credit(Next(q, Event.Sleep(t)), [t] + list) <= Credit(q, list) + 2
    ensures SomeoneAwake(q, list) ==> SomeoneAwake(Next(q, Event.Sleep(t)), [t] + list)
  {
    var u, l := Next(q, Event.Sleep(t)), [t] + list;
    assert t !in list && l[1..] == list;
    AwakeOutside(q.state, list, t, INTERRUPTIBLE);
    if SomeoneAwake(q, list) {
      var i :| 0 <= i < |list| && list[i] < |q.state| && q.state[list[i]] == RUNNING;
      AwakeOne(u, l, l[i + 1]);
    }
  }

  lemma SignalCredit(q: Queue, list: seq<nat>, t: nat)
    requires Stack(q, list) && Enabled(q, Event.Signal(t))
    ensures list != [] && SomeoneAwake(Next(q, Event.Signal(t)), list)
    ensures Credit(Next(q, Event.Signal(t)), list) <= Credit(q, list) + 1
  {
    var u := Next(q, Event.Signal(t));
    assert t in list;
    Split(q, list);
    AwakeOne(u, list, t);
    if t == list[0] {
      AwakeOutside(q.state, list[1..], t, RUNNING);
    } else {
      AwakeChanges(q.state, list[1..], t, RUNNING);
    }
  }

  ghost predicate NoSleep(events: seq<Event>) {
    forall k | 0 <= k < |events| :: !events[k].Sleep?
  }

  lemma {:induction false} EmptyStays(list: seq<nat>, events: seq<Event>)
    requires NoSleep(events) && Empties(list, events)
    ensures StackedAll(list, events) == []
    decreases events
  {
    if events != [] {
      var l := Stacked(list, events[0]);
      assert list == [] ==> l == [] && Empties(l, events[1..]);
      EmptyStays(l, events[1..]);
    }
  }

  /** One signal to any one of n sleepers: until the queue is first empty somebody on it is ready
      to run and all others can be woken by a signal, and the resumes number at most two for each
      sleeper, two for each task that joins and one for each further wake by a pending signal. If
      nobody joins, empty means all out. */
  lemma OneSignalReleasesAll(q: Queue, list: seq<nat>, t: nat, events: seq<Event>)
    requires Stack(q, list) && Enabled(q, Event.Signal(t)) && Legal(Next(q, Event.Signal(t)), events)
    ensures var u := After(Next(q, Event.Signal(t)), events);
            && Resumes(events) <= 2 * |list| + Signals(events) + 2 * Sleeps(events)
            && (Empties(list, events) || exists x :: x in u.saved && Enabled(u, Event.Resume(x)))
            && (NoSleep(events) && Empties(list, events) ==> u.saved == map[])
            && (Wakeable(q) ==> Wakeable(u))
  {
    var s := Next(q, Event.Signal(t));
    StackStep(q, list, Event.Signal(t));
    SignalCredit(q, list, t);
    ReleaseBound(s, list, events);
    ReleaseReady(s, list, events);
    if Wakeable(q) {
      StaysWakeable(s, events);
    }
  }

  lemma ReleaseBound(s: Queue, list: seq<nat>, events: seq<Event>)
    requires Stack(s, list) && list != [] && Legal(s, events)
    ensures Resumes(events) <= 2 * |list| + Signals(events) + 2 * Sleeps(events)
  {
    Drains(s, list, events);
    AwakeBound(s.state, list[1..]);
  }

  lemma ReleaseReady(s: Queue, list: seq<nat>, events: seq<Event>)
    requires Stack(s, list) && SomeoneAwake(s, list) && Legal(s, events)
    ensures var u := After(s, events);
            && (Empties(list, events) || exists x :: x in u.saved && Enabled(u, Event.Resume(x)))
            && (NoSleep(events) && Empties(list, events) ==> u.saved == map[])
  {
    Drains(s, list, events);
    var left := StackedAll(list, events);
    if SomeoneAwake(After(s, events), left) {
      SomeoneReady(After(s, events), left);
    }
    AllOut(After(s, events), list, events);
  }

  lemma AllOut(u: Queue, list: seq<nat>, events: seq<Event>)
    requires Stack(u, StackedAll(list, events))
    ensures NoSleep(events) && Empties(list, events) ==> u.saved == map[]
  {
    if NoSleep(events) && Empties(list, events) {
      EmptyStays(list, events);
      assert forall x | x in u.saved :: x in StackedAll(list, events);
    }
  }

  lemma SomeoneReady(u: Queue, left: seq<nat>)
    requires Stack(u, left) && SomeoneAwake(u, left)
    ensures exists x :: x in u.saved && Enabled(u, Event.Resume(x))
  {
    var k :| 0 <= k < |left| && left[k] < |u.state| && u.state[left[k]] == RUNNING;
    assert left[k] in u.saved && Enabled(u, Event.Resume(left[k]));
  }

  /** k rounds of: t resumes, finds another head, sleeps again, and is woken by its signal. */
  function Rounds(t: nat, k: nat): (r: seq<Event>)
    ensures |r| == 2 * k
  {
    if k == 0 then [] else [Event.Resume(t), Event.Signal(t)] + Rounds(t, k - 1)
  }

  lemma {:induction false} RoundsCount(list: seq<nat>, t: nat, k: nat)
    requires list != [] && t != list[0]
    ensures Resumes(Rounds(t, k)) == k && StackedAll(list, Rounds(t, k)) == list
  {
    if k > 0 {
      var rest := Rounds(t, k - 1);
      RoundsCount(list, t, k - 1);
      assert Rounds(t, k)[1..] == [Event.Signal(t)] + rest;
      assert ([Event.Signal(t)] + rest)[1..] == rest;
      assert Resumes([Event.Signal(t)] + rest) == Resumes(rest);
      assert StackedAll(list, [Event.Signal(t)] + rest) == StackedAll(list, rest);
    }
  }

  lemma TwoMore(q: Queue, a: Event, b: Event, u: Queue, v: Queue, rest: seq<Event>)
    requires Enabled(q, a) && u == Next(q, a) && Enabled(u, b) && v == Next(u, b)
    requires Legal(v, rest)
    ensures Legal(q, [a, b] + rest)
  {
    assert ([a, b] + rest)[1..] == [b] + rest;
    assert ([b] + rest)[1..] == rest;
    assert Legal(Next(q, a), [b] + rest);
  }

  lemma {:induction false} RoundsLegal(q: Queue, t: nat, k: nat)
    requires Enabled(q, Event.Resume(t)) && Retries(q, t)
    ensures Legal(q, Rounds(t, k))
    decreases k
  {
    if k > 0 {
      var a, b := Event.Resume(t), Event.Signal(t);
      var u := Next(q, a);
      var v := Next(u, b);
      RoundsLegal(v, t, k - 1);
      TwoMore(q, a, b, u, v, Rounds(t, k - 1));
    }
  }

  /** The further wakes have to be counted: an awake sleeper below the head can be resumed any
      number of times, and nobody leaves. */
  lemma RetriesUnbounded(q: Queue, list: seq<nat>, t: nat, k: nat)
    requires Stack(q, list) && Enabled(q, Event.Resume(t)) && list != [] && t != list[0]
    ensures Legal(q, Rounds(t, k)) && Resumes(Rounds(t, k)) == k && StackedAll(list, Rounds(t, k)) == list
  {
    RoundsLegal(q, t, k);
    RoundsCount(list, t, k);
  }

  // ---------- what bounds the wait: an awake task stays awake until it is selected ----------

  ghost predicate HeadAwake(q: Queue, list: seq<nat>) {
    Stack(q, list) && (list != [] ==> q.state[list[0]] == RUNNING)
  }

  /** Any resume leaves the head awake, and nothing but its own resume puts it out of the way;
      that resume is its exit. */
  lemma HeadStep(q: Queue, list: seq<nat>, e: Event)
    requires Stack(q, list) && Enabled(q, e) && !e.Sleep? && (e.Resume? || HeadAwake(q, list))
    ensures HeadAwake(Next(q, e), Stacked(list, e))
    ensures Stacked(list, e) == if list != [] && e == Event.Resume(list[0]) then list[1..] else list
  {
    StackStep(q, list, e);
    if e.Resume? {
      assert e.t in list;
    }
    if list != [] {
      Split(q, list);
      if e == Event.Resume(list[0]) {
        PopStep(q, list);
        NewHead(q, list, Leave(q, list[0]));
      } else {
        SameHead(q, list[0], e);
      }
    }
  }

  lemma NewHead(q: Queue, list: seq<nat>, u: Queue)
    requires list != [] && list[0] in q.saved && q.saved[list[0]] == At(list, 1)
    requires u == Leave(q, list[0]) && Stack(u, list[1..])
    ensures HeadAwake(u, list[1..])
  {
    if list[1..] != [] {
      Split(u, list[1..]);
    }
  }

  lemma SameHead(q: Queue, head: nat, e: Event)
    requires Enabled(q, e) && !e.Sleep? && e != Event.Resume(head)
    requires q.head == To(head) && head < |q.state| && head in q.saved
    requires e.Resume? || q.state[head] == RUNNING
    ensures head < |Next(q, e).state| && Next(q, e).state[head] == RUNNING
  {
  }

  lemma {:induction false} HeadKept(q: Queue, list: seq<nat>, events: seq<Event>)
    requires HeadAwake(q, list) && list != [] && Legal(q, events) && NoSleep(events)
    requires forall k | 0 <= k < |events| :: events[k] != Event.Resume(list[0])
    ensures HeadAwake(After(q, events), list)
    decreases events
  {
    if events != [] {
      HeadStep(q, list, events[0]);
      HeadKept(Next(q, events[0]), list, events[1..]);
    }
  }

  /** Suspended on the queue, and woken. */
  predicate Ready(q: Queue, x: nat) {
    x in q.saved && x < |q.state| && q.state[x] == RUNNING
  }

  /** Nothing but its own resume changes that. */
  lemma {:induction false} StaysReady(q: Queue, x: nat, events: seq<Event>)
    requires Ready(q, x) && Legal(q, events)
    requires forall k | 0 <= k < |events| :: events[k] != Event.Resume(x)
    ensures Ready(After(q, events), x)
    decreases events
  {
    if events != [] {
      assert Ready(Next(q, events[0]), x);
      StaysReady(Next(q, events[0]), x, events[1..]);
    }
  }

  /** A run of the scheduler beside the queue: at each step the queue makes any number of
      moves, in which only the current task resumes, and the two agree on the state of x. */
  ghost predicate Joint(run: seq<S.State>, qs: seq<Queue>, moves: seq<seq<Event>>, x: nat) {
    && |qs| == |run| == |moves| + 1
    && (forall k | 0 <= k < |moves| :: Moved(qs[k], moves[k], qs[k + 1], run[k].current))
    && (forall k | 0 <= k < |run| :: S.Runs(run[k].task, x) <==> x < |qs[k].state| && qs[k].state[x] == RUNNING)
  }

  ghost predicate Moved(q: Queue, events: seq<Event>, u: Queue, current: nat) {
    && Legal(q, events) && u == After(q, events)
    && forall k | 0 <= k < |events| && events[k].Resume? :: events[k].t == current
  }

  lemma {:induction false} ReadyRuns(run: seq<S.State>, qs: seq<Queue>, moves: seq<seq<Event>>, x: nat, k: nat)
    requires Joint(run, qs, moves, x) && Ready(qs[0], x) && k < |run|
    requires forall j | 0 <= j < k :: run[j].current != x
    ensures Ready(qs[k], x)
  {
    if k > 0 {
      ReadyRuns(run, qs, moves, x, k - 1);
      assert Moved(qs[k - 1], moves[k - 1], qs[k], run[k - 1].current);
      StaysReady(qs[k - 1], x, moves[k - 1]);
    }
  }

  /** Any suspended task that is awake is selected within the scheduler's waiting bound, whoever
      joins the queue, is signalled or retries meanwhile. */
  lemma AwakeServed(run: seq<S.State>, events: seq<F.Event>, qs: seq<Queue>, moves: seq<seq<Event>>, x: nat)
    requires Joint(run, qs, moves, x) && Ready(qs[0], x) && 1 <= x < 64
    requires F.IsRun(run, events) && F.Good(run[0]) && forall k | 0 <= k < |events| :: !events[k].Fork?
    requires F.UserTicks(events, |events|) >= F.WaitBound(run[0], x)
    ensures exists k :: 0 <= k < |run| && run[k].current == x
  {
    if forall k | 0 <= k < |run| :: run[k].current != x {
      forall k | 0 <= k < |run|
        ensures S.Runs(run[k].task, x)
      {
        ReadyRuns(run, qs, moves, x, k);
      }
      F.BoundedWaiting(run, events, x);
    }
  }

  lemma {:induction false} HeadStays(run: seq<S.State>, qs: seq<Queue>, moves: seq<seq<Event>>, list: seq<nat>, k: nat)
    requires list != [] && Joint(run, qs, moves, list[0]) && HeadAwake(qs[0], list) && k < |run|
    requires forall j | 0 <= j < |moves| :: NoSleep(moves[j])
    requires forall j | 0 <= j < k :: run[j].current != list[0]
    ensures HeadAwake(qs[k], list)
  {
    if k > 0 {
      HeadStays(run, qs, moves, list, k - 1);
      assert Moved(qs[k - 1], moves[k - 1], qs[k], run[k - 1].current);
      HeadKept(qs[k - 1], list, moves[k - 1]);
    }
  }

  lemma {:induction false} FirstTurn(run: seq<S.State>, x: nat, k: nat) returns (j: nat)
    requires k < |run| && run[k].current == x
    ensures j <= k && run[j].current == x && forall i | 0 <= i < j :: run[i].current != x
  {
    if i :| 0 <= i < k && run[i].current == x {
      j := FirstTurn(run, x, i);
    } else {
      j := k;
    }
  }

  /** If no task joins above it, an awake head is still the head when it is selected, so that its
      resume takes it out. */
  lemma HeadServed(run: seq<S.State>, events: seq<F.Event>, qs: seq<Queue>, moves: seq<seq<Event>>, list: seq<nat>)
    requires list != [] && Joint(run, qs, moves, list[0]) && HeadAwake(qs[0], list) && 1 <= list[0] < 64
    requires forall k | 0 <= k < |moves| :: NoSleep(moves[k])
    requires F.IsRun(run, events) && F.Good(run[0]) && forall k | 0 <= k < |events| :: !events[k].Fork?
    requires F.UserTicks(events, |events|) >= F.WaitBound(run[0], list[0])
    ensures exists k :: 0 <= k < |run| && run[k].current == list[0] && Leaves(qs[k], list)
  {
    Split(qs[0], list);
    AwakeServed(run, events, qs, moves, list[0]);
    var k :| 0 <= k < |run| && run[k].current == list[0];
    var j := FirstTurn(run, list[0], k);
    HeadStays(run, qs, moves, list, j);
    Split(qs[j], list);
    PopStep(qs[j], list);
  }

  /** The top of the stack can resume, and that resume takes it off the queue. */
  ghost predicate Leaves(q: Queue, list: seq<nat>) {
    && Stack(q, list) && list != [] && Enabled(q, Event.Resume(list[0]))
    && Stack(Next(q, Event.Resume(list[0])), list[1..])
  }
}
