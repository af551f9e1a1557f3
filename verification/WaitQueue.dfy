/** sleep_on and wake_up (kernel/sched.c) on one queue, as long as no other queue wakes its
    sleepers; QueueFamily treats all queues together. A queue is only a head pointer: the links
    are the `tmp` variables of the suspended calls. A call is split where it gives up the
    processor, and tasks are named by their slots. */
module WaitQueue {
  import opened TaskStates

  datatype Link = Nil | To(task: nat)

  /** `saved[t]` is the `tmp` of the sleep_on call task t is suspended in. */
  datatype Queue = Queue(head: Link, saved: map<nat, Link>, state: seq<nat>)

  /** `Alter` is any other change to a task that is not suspended on this queue. */
  datatype Event = Sleep(t: nat) | WakeUp | Resume(t: nat) | Alter(t: nat, state: nat)

  function Wake(state: seq<nat>, l: Link): (r: seq<nat>)
    ensures |r| == |state|
  {
    if l.To? && l.task < |state| then state[l.task := RUNNING] else state
  }

  /** sleep_on up to schedule(). */
  function Enter(q: Queue, t: nat): Queue
    requires t < |q.state|
  {
    Queue(To(t), q.saved[t := q.head], q.state[t := UNINTERRUPTIBLE])
  }

  /** The rest of sleep_on, once the scheduler has picked t again. */
  function Leave(q: Queue, t: nat): Queue
    requires t in q.saved
  {
    Queue(q.saved[t], q.saved - {t}, Wake(q.state, q.saved[t]))
  }

  function WakeHead(q: Queue): Queue {
    Queue(Nil, q.saved, Wake(q.state, q.head))
  }

  /** Only a RUNNING task is ever selected, so only such a task calls sleep_on or returns
      from it; in task 0 the call panics. */
  predicate Enabled(q: Queue, e: Event) {
    match e
    case Sleep(t) => 0 < t < |q.state| && q.state[t] == RUNNING && t !in q.saved
    case WakeUp => true
    case Resume(t) => t < |q.state| && q.state[t] == RUNNING && t in q.saved
    case Alter(t, _) => t < |q.state| && t !in q.saved
  }

  function Next(q: Queue, e: Event): Queue
    requires Enabled(q, e)
  {
    match e
    case Sleep(t) => Enter(q, t)
    case WakeUp => WakeHead(q)
    case Resume(t) => Leave(q, t)
    case Alter(t, st) => q.(state := q.state[t := st])
  }

  predicate Legal(q: Queue, events: seq<Event>)
    decreases events
  {
    events == [] || (Enabled(q, events[0]) && Legal(Next(q, events[0]), events[1..]))
  }

  function After(q: Queue, events: seq<Event>): Queue
    requires Legal(q, events)
    decreases events
  {
    if events == [] then q else After(Next(q, events[0]), events[1..])
  }

  /** The tasks that returned from sleep_on, in order. */
  function Resumed(events: seq<Event>): seq<nat> {
    if events == [] then []
    else (if events[0].Resume? then [events[0].t] else []) + Resumed(events[1..])
  }

  // ---------- the cascade ----------

  function At(list: seq<nat>, i: nat): Link {
    if i < |list| then To(list[i]) else Nil
  }

  /** `list` is the suspended tasks, each saving the next. */
  ghost predicate Chain(q: Queue, list: seq<nat>) {
    && (forall i | 0 <= i < |list| :: list[i] < |q.state| && list[i] in q.saved)
    && (forall i {:trigger q.saved[list[i]]} | 0 <= i < |list| :: q.saved[list[i]] == At(list, i + 1))
    && (forall i, j | 0 <= i < j < |list| :: list[i] != list[j])
    && (forall t | t in q.saved :: t in list)
  }

  ghost predicate Asleep(q: Queue, list: seq<nat>, k: nat) {
    forall i | k <= i < |list| && list[i] < |q.state| :: q.state[list[i]] == UNINTERRUPTIBLE
  }

  /** Nobody has been woken yet. */
  ghost predicate Resting(q: Queue, list: seq<nat>) {
    Chain(q, list) && q.head == At(list, 0) && Asleep(q, list, 0)
  }

  /** The first task is awake, the others still sleep. */
  ghost predicate Cascading(q: Queue, list: seq<nat>) {
    && Chain(q, list) && (q.head == Nil || q.head == At(list, 0)) && Asleep(q, list, 1)
    && (list != [] ==> q.state[list[0]] == RUNNING)
  }

  lemma PushChain(q: Queue, list: seq<nat>, t: nat, u: Queue)
    requires Chain(q, list) && t < |q.state| && t !in q.saved
    requires u.saved == q.saved[t := At(list, 0)] && |u.state| == |q.state|
    ensures Chain(u, [t] + list)
  {
    var l: seq<nat> := [t] + list;
    assert l[0] == t && forall i | 0 < i < |l| :: l[i] == list[i - 1];
    forall i | 0 <= i < |l|
      ensures l[i] < |u.state| && l[i] in u.saved && u.saved[l[i]] == At(l, i + 1)
    {
      assert i > 0 ==> q.saved[list[i - 1]] == At(list, i - 1 + 1);
    }
    forall x | x in u.saved
      ensures x in l
    {
      assert x == t || x in list;
    }
  }

  lemma SleepPushes(q: Queue, list: seq<nat>, t: nat)
    requires Resting(q, list) && Enabled(q, Sleep(t))
    ensures Resting(Next(q, Sleep(t)), [t] + list)
  {
    var u := Next(q, Sleep(t));
    PushChain(q, list, t, u);
    forall i | 0 <= i < |[t] + list|
      ensures u.state[([t] + list)[i]] == UNINTERRUPTIBLE
    {
    }
  }

  /** wake_up wakes the head's task and no other, and leaves the queue without a head, so that a
      second wake_up does nothing; who is suspended, and its pointers, stay as they are. */
  lemma WakesHead(q: Queue)
    ensures var u := Next(q, WakeUp);
            && u.head == Nil && u.saved == q.saved && |u.state| == |q.state|
            && (forall t | 0 <= t < |q.state| :: u.state[t] == if q.head == To(t) then RUNNING else q.state[t])
            && Next(u, WakeUp) == u
  {
  }

  lemma WakeStarts(q: Queue, list: seq<nat>)
    requires Resting(q, list)
    ensures Cascading(Next(q, WakeUp), list)
  {
    var u := WakeHead(q);
    assert Chain(u, list);
    assert Asleep(u, list, 1);
  }

  lemma OnlyFirst(q: Queue, list: seq<nat>, t: nat)
    requires Cascading(q, list) && Enabled(q, Resume(t))
    ensures list != [] && t == list[0]
  {
    var i :| 0 <= i < |list| && list[i] == t;
  }

  lemma ResumeChain(q: Queue, list: seq<nat>, u: Queue)
    requires Chain(q, list) && list != [] && u == Leave(q, list[0])
    ensures Chain(u, list[1..])
  {
    var rest: seq<nat> := list[1..];
    forall j | 0 <= j < |rest|
      ensures rest[j] < |u.state| && rest[j] in u.saved && u.saved[rest[j]] == At(rest, j + 1)
    {
      assert rest[j] == list[j + 1];
      assert q.saved[list[j + 1]] == At(list, j + 1 + 1);
    }
    forall t | t in u.saved
      ensures t in rest
    {
      var i :| 0 <= i < |list| && list[i] == t;
      assert rest[i - 1] == t;
    }
  }

  lemma ResumeWakes(q: Queue, list: seq<nat>, u: Queue)
    requires Cascading(q, list) && list != [] && u == Leave(q, list[0])
    ensures u.head == At(list, 1) && |u.state| == |q.state|
    ensures 1 < |list| ==> list[1] < |u.state| && u.state[list[1]] == RUNNING
    ensures Asleep(u, list, 2)
  {
    assert q.saved[list[0]] == At(list, 0 + 1);
  }

  lemma ResumePops(q: Queue, list: seq<nat>)
    requires Cascading(q, list) && list != []
    ensures Enabled(q, Resume(list[0])) && Cascading(Next(q, Resume(list[0])), list[1..])
  {
    var u, rest := Leave(q, list[0]), list[1..];
    ResumeChain(q, list, u);
    ResumeWakes(q, list, u);
    Shifted(u, list, rest);
  }

  lemma Shifted(u: Queue, list: seq<nat>, rest: seq<nat>)
    requires list != [] && rest == list[1..] && Chain(u, rest) && u.head == At(list, 1) && Asleep(u, list, 2)
    requires 1 < |list| ==> list[1] < |u.state| && u.state[list[1]] == RUNNING
    ensures Cascading(u, rest)
  {
    forall i | 1 <= i < |rest|
      ensures u.state[rest[i]] == UNINTERRUPTIBLE
    {
      assert rest[i] == list[i + 1];
    }
  }

  /** While the cascade lasts exactly one suspended task can resume, and it wakes the next. */
  lemma CascadeStep(q: Queue, list: seq<nat>, e: Event)
    requires Cascading(q, list) && Enabled(q, e) && !e.Sleep?
    ensures e.Resume? ==> list != [] && e.t == list[0] && Cascading(Next(q, e), list[1..])
    ensures !e.Resume? ==> Cascading(Next(q, e), list)
  {
    if e.Resume? {
      OnlyFirst(q, list, e.t);
      ResumePops(q, list);
    }
  }

  /** After the tasks in `done` have returned, in that order, the rest of the list still
      cascades: one task is ready and it alone; with nobody left the head is NULL. */
  ghost predicate Progress(q: Queue, list: seq<nat>, done: seq<nat>) {
    && done <= list && Cascading(q, list[|done|..])
    && (|done| < |list| ==> Enabled(q, Resume(list[|done|])))
    && (|done| == |list| ==> q.head == Nil && q.saved == map[])
  }

  lemma NothingDone(q: Queue, list: seq<nat>)
    requires Cascading(q, list)
    ensures Progress(q, list, [])
  {
    assert list[0..] == list;
    assert list == [] ==> q.saved == map[];
  }

  lemma OneMoreDone(q: Queue, list: seq<nat>, done: seq<nat>)
    requires list != [] && Progress(q, list[1..], done)
    ensures Progress(q, list, [list[0]] + done)
  {
    DropOneMore(list, done);
  }

  lemma DropOneMore(list: seq<nat>, done: seq<nat>)
    requires list != [] && done <= list[1..]
    ensures var all := [list[0]] + done;
            all <= list && |all| == |done| + 1 && list[1..][|done|..] == list[|all|..]
            && (|all| < |list| ==> list[1..][|done|] == list[|all|])
  {
    assert list == [list[0]] + list[1..];
  }

  /** However many tasks sleep on the queue, after one wake_up and until a new task goes to
      sleep: the tasks return from sleep_on in last-in-first-out order, each is woken by the
      one before it and not earlier, one can always go on, and when the last has returned the
      head is NULL and nobody is left behind. */
  lemma {:induction false} CascadeRun(q: Queue, list: seq<nat>, events: seq<Event>)
    requires Cascading(q, list) && Legal(q, events) && forall k | 0 <= k < |events| :: !events[k].Sleep?
    ensures Progress(After(q, events), list, Resumed(events))
    decreases events
  {
    if events == [] {
      NothingDone(q, list);
    } else {
      var e, rest := events[0], events[1..];
      var u := Next(q, e);
      CascadeStep(q, list, e);
      if e.Resume? {
        CascadeRun(u, list[1..], rest);
        OneMoreDone(After(u, rest), list, Resumed(rest));
      } else {
        CascadeRun(u, list, rest);
        assert [] + Resumed(rest) == Resumed(rest);
      }
    }
  }

  function Sleeps(ts: seq<nat>): seq<Event> {
    if ts == [] then [] else [Sleep(ts[0])] + Sleeps(ts[1..])
  }

  function Reverse(ts: seq<nat>): seq<nat> {
    if ts == [] then [] else Reverse(ts[1..]) + [ts[0]]
  }

  lemma {:induction false} SleepersPush(q: Queue, list: seq<nat>, ts: seq<nat>)
    requires Resting(q, list) && Legal(q, Sleeps(ts))
    ensures Resting(After(q, Sleeps(ts)), Reverse(ts) + list)
    decreases ts
  {
    if ts == [] {
      assert Reverse(ts) + list == list;
    } else {
      SleepPushes(q, list, ts[0]);
      assert Sleeps(ts)[1..] == Sleeps(ts[1..]);
      SleepersPush(Next(q, Sleep(ts[0])), [ts[0]] + list, ts[1..]);
      assert Reverse(ts[1..]) + ([ts[0]] + list) == Reverse(ts) + list;
    }
  }

  /** An empty queue after the calls of sleep_on by `ts`, in that order, and one wake_up. */
  function Woken(state: seq<nat>, ts: seq<nat>): Queue
    requires Legal(Queue(Nil, map[], state), Sleeps(ts))
  {
    Next(After(Queue(Nil, map[], state), Sleeps(ts)), WakeUp)
  }

  /** The whole life of a queue: n tasks go to sleep, one wake_up, and they come back in
      reverse order until all have. */
  lemma SleepWakeResume(state: seq<nat>, ts: seq<nat>, events: seq<Event>)
    requires Legal(Queue(Nil, map[], state), Sleeps(ts)) && Legal(Woken(state, ts), events)
    requires forall k | 0 <= k < |events| :: !events[k].Sleep?
    ensures Progress(After(Woken(state, ts), events), Reverse(ts), Resumed(events))
  {
    var q0 := Queue(Nil, map[], state);
    SleepersPush(q0, [], ts);
    var list := Reverse(ts);
    assert list + [] == list;
    WakeStarts(After(q0, Sleeps(ts)), list);
    CascadeRun(Woken(state, ts), list, events);
  }

  // ---------- who can be lost ----------

  predicate Pointed(q: Queue, x: nat) {
    q.head == To(x) || exists y :: y in q.saved && q.saved[y] == To(x)
  }

  predicate Suspended(q: Queue, x: nat) {
    x in q.saved && x < |q.state| && q.state[x] != RUNNING
  }

  /** A sleeper nothing leads to. */
  predicate Stranded(q: Queue, x: nat) {
    Suspended(q, x) && !Pointed(q, x)
  }

  /** Exactly when a step strands a task: the `*p = tmp` of a resuming call overwrites the
      head while that is the only pointer to a task still asleep. */
  lemma StrandedBy(q: Queue, e: Event, x: nat)
    requires Enabled(q, e) && !Stranded(q, x)
    ensures Stranded(Next(q, e), x) <==>
              && e.Resume? && q.head == To(x) && x != e.t && Suspended(q, x)
              && forall y | y in q.saved :: q.saved[y] != To(x)
  {
    var u := Next(q, e);
    match e
    case Sleep(t) =>
      assert u.saved[t] == q.head;
      if y :| y in q.saved && q.saved[y] == To(x) {
        assert u.saved[y] == To(x);
      }
    case WakeUp =>
    case Resume(t) =>
      if y :| y in q.saved && y != t && q.saved[y] == To(x) {
        assert u.saved[y] == To(x);
      }
    case Alter(t, _) =>
  }

  /** A stranded task never runs again, whatever happens to this queue. Only a pointer that
      another queue kept can still reach it: `QueueFamily.RunsAgainIff` is the exact condition. */
  lemma {:induction false} StrandedForever(q: Queue, events: seq<Event>, x: nat)
    requires Legal(q, events) && Stranded(q, x)
    ensures Stranded(After(q, events), x)
    decreases events
  {
    if events != [] {
      assert Stranded(Next(q, events[0]), x);
      StrandedForever(Next(q, events[0]), events[1..], x);
    }
  }

  /** So a task that goes to sleep while a cascade is under way is lost at the next resume,
      in every cascade, unless a second wake_up comes first. */
  lemma LateSleeper(q: Queue, list: seq<nat>, t: nat, second: bool)
    requires Cascading(q, list) && list != [] && Enabled(q, Sleep(t))
    ensures var u := if second then Next(Next(q, Sleep(t)), WakeUp) else Next(q, Sleep(t));
            Enabled(u, Resume(list[0])) && (Stranded(Next(u, Resume(list[0])), t) <==> !second)
  {
    assert t !in list && t != list[0];
    var s := Next(q, Sleep(t));
    var u := if second then Next(s, WakeUp) else s;
    NobodySaves(q, list, t);
    assert forall y | y in u.saved :: u.saved[y] != To(t);
    StrandedBy(u, Resume(list[0]), t);
  }

  lemma NobodySaves(q: Queue, list: seq<nat>, t: nat)
    requires Chain(q, list) && t !in list && q.head != To(t) && t < |q.state|
    ensures forall y | y in Enter(q, t).saved :: Enter(q, t).saved[y] != To(t)
  {
    forall y | y in q.saved
      ensures q.saved[y] != To(t)
    {
      var i :| 0 <= i < |list| && list[i] == y;
      assert q.saved[list[i]] == At(list, i + 1);
    }
  }

  /** The second wake_up has its own price: once the first task of the cascade has left, the
      late sleeper still holds a pointer to it, and wakes it wherever it sleeps by then. */
  lemma SpuriousWake(q: Queue, list: seq<nat>, t: nat)
    requires Cascading(q, list) && list != [] && q.head == To(list[0]) && Enabled(q, Sleep(t))
    ensures var x := list[0];
            var events := [Sleep(t), WakeUp, Resume(x), Alter(x, UNINTERRUPTIBLE), Resume(t)];
            && Legal(q, events)
            && x !in After(q, events).saved && x < |After(q, events).state| && After(q, events).state[x] == RUNNING
  {
    var x := list[0];
    assert t !in list && t != x;
    var q1 := Next(q, Sleep(t));
    var q2 := Next(q1, WakeUp);
    var q3 := Next(q2, Resume(x));
    var q4 := Next(q3, Alter(x, UNINTERRUPTIBLE));
    assert q.saved[x] != To(t) && q.saved[x] != To(x) by {
      assert q.saved[x] == At(list, 0 + 1);
    }
    var q5 := Next(q4, Resume(t));
    AfterFive(q, Sleep(t), WakeUp, Resume(x), Alter(x, UNINTERRUPTIBLE), Resume(t));
  }

  /** Such a cascade arises: two tasks sleep, one wake_up, and the first has returned. */
  lemma CascadeArises()
    ensures var q := Queue(Nil, map[], [RUNNING, RUNNING, RUNNING, RUNNING]);
            var events := [Sleep(1), Sleep(2), WakeUp, Resume(2), Alter(3, RUNNING)];
            Legal(q, events) && Cascading(After(q, events), [1]) && After(q, events).head == To(1)
              && Enabled(After(q, events), Sleep(3))
  {
    var q := Queue(Nil, map[], [RUNNING, RUNNING, RUNNING, RUNNING]);
    var q2 := Next(Next(q, Sleep(1)), Sleep(2));
    var q4 := Next(Next(q2, WakeUp), Resume(2));
    assert q4.saved == map[1 := Nil];
    AfterFive(q, Sleep(1), Sleep(2), WakeUp, Resume(2), Alter(3, RUNNING));
  }

  lemma AfterFive(q: Queue, a: Event, b: Event, c: Event, d: Event, e: Event)
    requires Enabled(q, a)
    requires Enabled(Next(q, a), b) && Enabled(Next(Next(q, a), b), c)
    requires Enabled(Next(Next(Next(q, a), b), c), d) && Enabled(Next(Next(Next(Next(q, a), b), c), d), e)
    ensures Legal(q, [a, b, c, d, e])
    ensures After(q, [a, b, c, d, e]) == Next(Next(Next(Next(Next(q, a), b), c), d), e)
  {
    var q1 := Next(q, a);
    var q2 := Next(q1, b);
    var q3 := Next(q2, c);
    var q4 := Next(q3, d);
    assert [a, b, c, d, e][1..] == [b, c, d, e];
    assert [b, c, d, e][1..] == [c, d, e];
    assert [c, d, e][1..] == [d, e];
    assert [d, e][1..] == [e];
    assert [e][1..] == [];
    assert Legal(q4, [e]);
    assert Legal(q3, [d, e]);
    assert Legal(q2, [c, d, e]);
    assert Legal(q1, [b, c, d, e]);
    assert After(q4, [e]) == Next(q4, e);
    assert After(q3, [d, e]) == Next(q4, e);
    assert After(q2, [c, d, e]) == Next(q4, e);
    assert After(q1, [b, c, d, e]) == Next(q4, e);
  }

  // ---------- in place ----------

  /** The queue head, the suspended calls and the task states as the kernel keeps them. */
  class SleepQueue {
    var head: Link
    var saved: map<nat, Link>
    const state: array<nat>

    constructor (tasks: nat)
      ensures fresh(state) && View() == Queue(Nil, map[], seq(tasks, i => RUNNING))
    {
      head, saved := Nil, map[];
      state := new nat[tasks](i => RUNNING);
      new;
      assert state[..] == seq(tasks, i => RUNNING);
    }

    function View(): Queue
      reads this, state
    {
      Queue(head, saved, state[..])
    }

    /** sleep_on by task `current`, up to the call of schedule(). */
    method SleepOn(current: nat)
      requires Enabled(View(), Sleep(current))
      modifies this, state
      ensures View() == Next(old(View()), Sleep(current))
    {
      var tmp := head;
      head := To(current);
      state[current] := UNINTERRUPTIBLE;
      saved := saved[current := tmp];
    }

    /** The rest of sleep_on. */
    method FinishSleep(current: nat)
      requires Enabled(View(), Resume(current))
      modifies this, state
      ensures View() == Next(old(View()), Resume(current))
    {
      var tmp := saved[current];
      saved := saved - {current};
      head := tmp;
      if tmp.To? && tmp.task < state.Length {
        state[tmp.task] := RUNNING;
      }
    }

    method WakeUpHead()
      modifies this, state
      ensures View() == Next(old(View()), WakeUp)
    {
      if head.To? {
        if head.task < state.Length {
          state[head.task] := RUNNING;
        }
        head := Nil;
      }
    }
  }
}
