/** All the wait queues of the kernel over one task table (kernel/sched.c): a pointer left in one
    queue can wake a task that sleeps on another. */
module QueueFamily {
  import opened TaskStates
  import opened WaitQueue

  /** `head[i]` and `saved[i]` belong to queue i; a task is suspended in one call at a time. */
  datatype Family = Family(head: seq<Link>, saved: seq<map<nat, Link>>, state: seq<nat>)

  datatype Move = On(i: nat, e: Event) | Elsewhere(t: nat, state: nat)

  ghost predicate Shape(f: Family) {
    && |f.saved| == |f.head|
    && forall i, t | 0 <= i < |f.saved| && t in f.saved[i] :: t < |f.state|
  }

  function Of(f: Family, i: nat): Queue
    requires i < |f.head| == |f.saved|
  {
    Queue(f.head[i], f.saved[i], f.state)
  }

  predicate Free(f: Family, t: nat) {
    forall i | 0 <= i < |f.saved| :: t !in f.saved[i]
  }

  predicate Allowed(f: Family, m: Move)
    requires |f.saved| == |f.head|
  {
    match m
    case On(i, e) => i < |f.head| && !e.Alter? && Enabled(Of(f, i), e) && (e.Sleep? ==> Free(f, e.t))
    case Elsewhere(t, _) => t < |f.state| && Free(f, t)
  }

  function Step(f: Family, m: Move): (g: Family)
    requires |f.saved| == |f.head| && Allowed(f, m)
    ensures |g.head| == |f.head| && |g.saved| == |f.saved|
  {
    match m
    case On(i, e) =>
      var q := Next(Of(f, i), e);
      Family(f.head[i := q.head], f.saved[i := q.saved], q.state)
    case Elsewhere(t, st) => f.(state := f.state[t := st])
  }

  predicate Possible(f: Family, moves: seq<Move>)
    requires |f.saved| == |f.head|
    decreases moves
  {
    moves == [] || (Allowed(f, moves[0]) && Possible(Step(f, moves[0]), moves[1..]))
  }

  function Reached(f: Family, moves: seq<Move>): Family
    requires |f.saved| == |f.head| && Possible(f, moves)
    decreases moves
  {
    if moves == [] then f else Reached(Step(f, moves[0]), moves[1..])
  }

  lemma {:induction false} OneMoreMove(f: Family, moves: seq<Move>, m: Move)
    requires |f.saved| == |f.head| && Possible(f, moves)
    requires |Reached(f, moves).saved| == |Reached(f, moves).head| && Allowed(Reached(f, moves), m)
    ensures Possible(f, moves + [m]) && Reached(f, moves + [m]) == Step(Reached(f, moves), m)
    decreases moves
  {
    if moves == [] {
      assert moves + [m] == [m];
      assert [m][1..] == [];
    } else {
      assert (moves + [m])[1..] == moves[1..] + [m];
      OneMoreMove(Step(f, moves[0]), moves[1..], m);
    }
  }

  // ---------- who can still be woken ----------

  predicate Sleeping(f: Family, x: nat) {
    x < |f.state| && f.state[x] != RUNNING && !Free(f, x)
  }

  /** Task y, suspended on queue i, will wake x when it returns. */
  predicate Saves(f: Family, i: nat, y: nat, x: nat) {
    i < |f.saved| && y in f.saved[i] && f.saved[i][y] == To(x)
  }

  /** x is at the end of a chain of pointers, of whatever queues, that starts at a head or at a
      suspended task that is awake, with at most n sleepers in between. */
  ghost predicate Led(f: Family, x: nat, n: nat)
    requires Shape(f)
    decreases n
  {
    || To(x) in f.head
    || exists i: nat, y: nat :: Saves(f, i, y, x) && (f.state[y] == RUNNING || (n > 0 && Led(f, y, n - 1)))
  }

  /** A set of sleepers nothing outside leads into. */
  ghost predicate Doomed(f: Family, d: set<nat>) {
    && (forall x | x in d :: Sleeping(f, x))
    && (forall i | 0 <= i < |f.head| :: f.head[i].To? ==> f.head[i].task !in d)
    && (forall i, y | 0 <= i < |f.saved| && y in f.saved[i] && f.saved[i][y].To? && f.saved[i][y].task in d :: y in d)
  }

  lemma StepShape(f: Family, m: Move)
    requires Shape(f) && Allowed(f, m)
    ensures Shape(Step(f, m))
  {
  }

  lemma DoomedStep(f: Family, m: Move, d: set<nat>)
    requires Shape(f) && Allowed(f, m) && Doomed(f, d)
    ensures Doomed(Step(f, m), d)
  {
    var g := Step(f, m);
    forall x | x in d
      ensures Sleeping(g, x)
    {
      assert Sleeping(f, x);
      var i :| 0 <= i < |f.saved| && x in f.saved[i];
      assert x in g.saved[i];
    }
  }

  lemma {:induction false} DoomedForever(f: Family, moves: seq<Move>, d: set<nat>)
    requires Shape(f) && Possible(f, moves) && Doomed(f, d)
    ensures Doomed(Reached(f, moves), d)
    decreases moves
  {
    if moves != [] {
      StepShape(f, moves[0]);
      DoomedStep(f, moves[0], d);
      DoomedForever(Step(f, moves[0]), moves[1..], d);
    }
  }

  /** The sleepers no chain leads to. */
  ghost function Lost(f: Family): set<nat>
    requires Shape(f)
  {
    set x | 0 <= x < |f.state| && Sleeping(f, x) && !EverLed(f, x)
  }

  lemma LostDoomed(f: Family)
    requires Shape(f)
    ensures Doomed(f, Lost(f))
  {
    forall i | 0 <= i < |f.head| && f.head[i].To?
      ensures f.head[i].task !in Lost(f)
    {
      assert Led(f, f.head[i].task, 0);
    }
    forall i, y | 0 <= i < |f.saved| && y in f.saved[i] && f.saved[i][y].To? && f.saved[i][y].task in Lost(f)
      ensures y in Lost(f)
    {
      LinkLost(f, i, y);
    }
  }

  lemma LinkLost(f: Family, i: nat, y: nat)
    requires Shape(f) && i < |f.saved| && y in f.saved[i] && f.saved[i][y].To? && f.saved[i][y].task in Lost(f)
    ensures y in Lost(f)
  {
    var x := f.saved[i][y].task;
    EverLink(f, i, y, x);
    assert !Free(f, y);
  }

  lemma EverLink(f: Family, i: nat, y: nat, x: nat)
    requires Shape(f) && Saves(f, i, y, x)
    ensures EverLed(f, y) || f.state[y] == RUNNING ==> EverLed(f, x)
  {
    if EverLed(f, y) {
      var n: nat :| Led(f, y, n);
      LedLink(f, i, y, x, n);
    } else if f.state[y] == RUNNING {
      assert Led(f, x, 0);
    }
  }

  lemma LedLink(f: Family, i: nat, y: nat, x: nat, n: nat)
    requires Shape(f) && Saves(f, i, y, x)
    ensures Led(f, y, n) ==> Led(f, x, n + 1)
  {
    var k := n + 1;
    if Led(f, y, n) {
      assert Saves(f, i, y, x) && Led(f, y, k - 1);
    }
  }

  ghost predicate EverLed(f: Family, x: nat)
    requires Shape(f)
  {
    exists n: nat :: Led(f, x, n)
  }

  /** What a run that only wakes leaves alone: nobody goes to sleep, and the tasks that return
      were awake, or led to within n. */
  ghost predicate Gentle(f: Family, g: Family, n: int)
    requires Shape(f)
  {
    && |g.saved| == |f.saved| && |g.head| == |f.head| && |g.state| == |f.state|
    && forall i, z | 0 <= i < |f.saved| && z in f.saved[i] && f.state[z] != RUNNING && !(n >= 0 && Led(f, z, n)) ::
         z in g.saved[i] && g.saved[i][z] == f.saved[i][z]
  }

  lemma {:induction false} LedMore(f: Family, x: nat, n: nat, m: nat)
    requires Shape(f) && Led(f, x, n) && n <= m
    ensures Led(f, x, m)
    decreases n
  {
    if To(x) !in f.head {
      var i: nat, y: nat :| Saves(f, i, y, x) && (f.state[y] == RUNNING || (n > 0 && Led(f, y, n - 1)));
      if f.state[y] != RUNNING {
        LedMore(f, y, n - 1, m - 1);
      }
    }
  }

  /** A shortest chain can be followed. */
  lemma {:induction false} Follow(f: Family, x: nat, n: nat) returns (moves: seq<Move>)
    requires Shape(f) && x < |f.state| && Led(f, x, n) && (n > 0 ==> !Led(f, x, n - 1))
    ensures Possible(f, moves) && Gentle(f, Reached(f, moves), n - 1)
    ensures Reached(f, moves).state[x] == RUNNING
    decreases n
  {
    if i :| 0 <= i < |f.head| && f.head[i] == To(x) {
      moves := ByHead(f, x, i, n);
    } else {
      var i: nat, y: nat :| Saves(f, i, y, x) && (f.state[y] == RUNNING || (n > 0 && Led(f, y, n - 1)));
      if f.state[y] == RUNNING {
        moves := [];
        assert Reached(f, []) == f;
        moves := ByLink(f, f, [], x, i, y, n);
      } else {
        if n > 1 {
          LedLink(f, i, y, x, n - 2);
        }
        var before := Follow(f, y, n - 1);
        moves := ByLink(f, Reached(f, before), before, x, i, y, n);
      }
    }
  }

  lemma ByHead(f: Family, x: nat, i: nat, n: nat) returns (moves: seq<Move>)
    requires Shape(f) && x < |f.state| && i < |f.head| && f.head[i] == To(x)
    ensures Possible(f, moves) && Gentle(f, Reached(f, moves), n - 1)
    ensures Reached(f, moves).state[x] == RUNNING
  {
    var m := On(i, WakeUp);
    assert Possible(f, []) && Reached(f, []) == f;
    OneMoreMove(f, [], m);
    moves := [] + [m];
  }

  lemma ByLink(f: Family, g: Family, before: seq<Move>, x: nat, i: nat, y: nat, n: nat) returns (moves: seq<Move>)
    requires Shape(f) && Possible(f, before) && g == Reached(f, before) && x < |f.state|
    requires i < |f.saved| && y in f.saved[i] && f.saved[i][y] == To(x) && |g.state| == |f.state|
    requires |g.saved| == |f.saved| && |g.head| == |f.head| && g.state[y] == RUNNING && y in g.saved[i]
             && g.saved[i][y] == To(x)
    requires (f.state[y] == RUNNING && g == f) || (n > 0 && Led(f, y, n - 1) && Gentle(f, g, n - 2))
    ensures Possible(f, moves) && Gentle(f, Reached(f, moves), n - 1)
    ensures Reached(f, moves).state[x] == RUNNING
  {
    var m := On(i, Resume(y));
    OneMoreMove(f, before, m);
    moves := before + [m];
    var h := Step(g, m);
    forall j, z | 0 <= j < |f.saved| && z in f.saved[j] && f.state[z] != RUNNING && !(n - 1 >= 0 && Led(f, z, n - 1))
      ensures z in h.saved[j] && h.saved[j][z] == f.saved[j][z]
    {
      if g != f && n - 2 >= 0 && Led(f, z, n - 2) {
        LedMore(f, z, n - 2, n - 1);
      }
    }
  }

  lemma {:induction false} Shortest(f: Family, x: nat, n: nat) returns (k: nat)
    requires Shape(f) && Led(f, x, n)
    ensures Led(f, x, k) && (k > 0 ==> !Led(f, x, k - 1))
  {
    if n > 0 && Led(f, x, n - 1) {
      k := Shortest(f, x, n - 1);
    } else {
      k := n;
    }
  }

  ghost predicate RunsIn(f: Family, x: nat, moves: seq<Move>)
    requires Shape(f)
  {
    Possible(f, moves) && x < |Reached(f, moves).state| && Reached(f, moves).state[x] == RUNNING
  }

  /** A suspended task that sleeps can run again if and only if a chain of pointers leads to it:
      from the head of some queue or from a suspended task that is awake, through the saved
      pointers of sleepers of any queues. */
  lemma RunsAgainIff(f: Family, x: nat)
    requires Shape(f) && Sleeping(f, x)
    ensures (exists moves :: RunsIn(f, x, moves)) <==> EverLed(f, x)
  {
    if EverLed(f, x) {
      var n: nat :| Led(f, x, n);
      var k := Shortest(f, x, n);
      var moves := Follow(f, x, k);
      assert RunsIn(f, x, moves);
    } else {
      LostDoomed(f);
      forall moves
        ensures !RunsIn(f, x, moves)
      {
        if Possible(f, moves) {
          DoomedForever(f, moves, Lost(f));
          assert Sleeping(Reached(f, moves), x);
        }
      }
    }
  }

  // ---------- cascades on several queues at once ----------

  /** Every queue rests or cascades, and no task is on two. */
  ghost predicate Tidy(f: Family, lists: seq<seq<nat>>) {
    && |f.saved| == |f.head| == |lists|
    && (forall i | 0 <= i < |lists| :: TidyAt(f, lists, i))
    && (forall i, j | 0 <= i < |lists| && 0 <= j < |lists| && i != j :: Apart(lists[i], lists[j]))
  }

  ghost predicate TidyAt(f: Family, lists: seq<seq<nat>>, i: nat)
    requires i < |f.head| == |f.saved| == |lists|
  {
    Neat(Of(f, i), lists[i])
  }

  ghost predicate Neat(q: Queue, list: seq<nat>) {
    Resting(q, list) || Cascading(q, list)
  }

  predicate Apart(a: seq<nat>, b: seq<nat>) {
    forall t | t in a :: t !in b
  }

  /** Nobody goes to sleep on a queue whose cascade is under way. */
  ghost predicate Orderly(f: Family, lists: seq<seq<nat>>, m: Move)
    requires |f.saved| == |f.head| == |lists|
  {
    Allowed(f, m) && (m.On? && m.e.Sleep? ==> Resting(Of(f, m.i), lists[m.i]))
  }

  function ListAfter(list: seq<nat>, e: Event): seq<nat> {
    match e
    case Sleep(t) => [t] + list
    case Resume(t) => if list == [] then [] else list[1..]
    case _ => list
  }

  function ListsAfter(lists: seq<seq<nat>>, m: Move): seq<seq<nat>> {
    if m.On? && m.i < |lists| then lists[m.i := ListAfter(lists[m.i], m.e)] else lists
  }

  lemma AllAsleep(q: Queue, list: seq<nat>, t: nat)
    requires Resting(q, list) && t in q.saved
    ensures !Enabled(q, Resume(t))
  {
    var i :| 0 <= i < |list| && list[i] == t;
    assert q.state[list[i]] == UNINTERRUPTIBLE;
  }

  /** The queue the move is on. */
  lemma OwnStep(q: Queue, list: seq<nat>, e: Event)
    requires Neat(q, list) && Enabled(q, e) && !e.Alter? && (e.Sleep? ==> Resting(q, list))
    ensures Neat(Next(q, e), ListAfter(list, e))
    ensures Cascading(q, list) && !e.Sleep?
            ==> Cascading(Next(q, e), ListAfter(list, e)) && (e.Resume? ==> list != [] && e.t == list[0])
  {
    if Cascading(q, list) && !e.Sleep? {
      CascadeStep(q, list, e);
    } else if e.Resume? {
      AllAsleep(q, list, e.t);
    } else if e.Sleep? {
      SleepPushes(q, list, e.t);
    } else {
      WakeStarts(q, list);
    }
  }

  /** The queue's pointers lead to its own list. */
  ghost predicate Inward(q: Queue, list: seq<nat>) {
    && (q.head.To? ==> q.head.task in list)
    && (forall y | y in q.saved :: q.saved[y].To? ==> q.saved[y].task in list)
  }

  lemma NeatInward(q: Queue, list: seq<nat>)
    requires Neat(q, list)
    ensures Inward(q, list) && forall t | t in list :: t in q.saved
  {
    forall y | y in q.saved
      ensures q.saved[y].To? ==> q.saved[y].task in list
    {
      var i :| 0 <= i < |list| && list[i] == y;
      assert q.saved[list[i]] == At(list, i + 1);
    }
  }

  lemma SameElsewhere(q: Queue, list: seq<nat>, e: Event, t: nat)
    requires Inward(q, list) && Enabled(q, e) && !e.Alter? && t !in list && !(e.Sleep? && e.t == t)
    ensures |Next(q, e).state| == |q.state| && (t < |q.state| ==> Next(q, e).state[t] == q.state[t])
  {
  }

  /** A queue the move is not on. */
  lemma OtherStep(q: Queue, list: seq<nat>, u: Queue)
    requires Neat(q, list)
    requires u.head == q.head && u.saved == q.saved && |u.state| == |q.state|
    requires forall t | t in list && t < |q.state| :: u.state[t] == q.state[t]
    ensures Resting(q, list) ==> Resting(u, list)
    ensures Cascading(q, list) ==> Cascading(u, list)
  {
    forall i | 0 <= i < |list|
      ensures list[i] < |u.state| && u.state[list[i]] == q.state[list[i]]
    {
      assert list[i] in list;
    }
    forall i | 0 <= i < |list|
      ensures u.saved[list[i]] == At(list, i + 1)
    {
      assert q.saved[list[i]] == At(list, i + 1);
    }
    assert Chain(u, list);
  }

  lemma TidyStep(f: Family, lists: seq<seq<nat>>, m: Move)
    requires Tidy(f, lists) && Orderly(f, lists, m)
    ensures Tidy(Step(f, m), ListsAfter(lists, m))
    ensures forall i | 0 <= i < |lists| && Cascading(Of(f, i), lists[i]) && !(m.On? && m.i == i && m.e.Sleep?) ::
              Cascading(Of(Step(f, m), i), ListsAfter(lists, m)[i])
              && (m.On? && m.i == i && m.e.Resume? ==> lists[i] != [] && m.e.t == lists[i][0])
  {
    var g, after := Step(f, m), ListsAfter(lists, m);
    forall i | 0 <= i < |lists|
      ensures TidyAt(g, after, i)
      ensures Cascading(Of(f, i), lists[i]) && !(m.On? && m.i == i && m.e.Sleep?) ==>
                Cascading(Of(g, i), after[i]) && (m.On? && m.i == i && m.e.Resume?
                  ==> lists[i] != [] && m.e.t == lists[i][0])
    {
      assert TidyAt(f, lists, i);
      if m.On? && m.i == i {
        OwnStep(Of(f, i), lists[i], m.e);
        assert Of(g, i) == Next(Of(f, i), m.e);
      } else {
        OthersUntouched(f, lists, m, i);
        OtherStep(Of(f, i), lists[i], Of(g, i));
      }
    }
    forall i, j | 0 <= i < |after| && 0 <= j < |after| && i != j
      ensures Apart(after[i], after[j])
    {
      StaysApart(f, lists, m, i, j);
    }
  }

  lemma OthersUntouched(f: Family, lists: seq<seq<nat>>, m: Move, i: nat)
    requires Tidy(f, lists) && Orderly(f, lists, m) && i < |lists| && !(m.On? && m.i == i)
    ensures |Step(f, m).state| == |f.state|
    ensures forall t | t in lists[i] && t < |f.state| :: Step(f, m).state[t] == f.state[t]
  {
    assert TidyAt(f, lists, i);
    NeatInward(Of(f, i), lists[i]);
    if m.On? {
      assert TidyAt(f, lists, m.i);
      NeatInward(Of(f, m.i), lists[m.i]);
      assert Apart(lists[i], lists[m.i]);
      forall t | t in lists[i]
        ensures t < |f.state| ==> Step(f, m).state[t] == f.state[t]
        ensures |Step(f, m).state| == |f.state|
      {
        SameElsewhere(Of(f, m.i), lists[m.i], m.e, t);
      }
    }
  }

  lemma StaysApart(f: Family, lists: seq<seq<nat>>, m: Move, i: nat, j: nat)
    requires Tidy(f, lists) && Orderly(f, lists, m) && i < |lists| && j < |lists| && i != j
    ensures Apart(ListsAfter(lists, m)[i], ListsAfter(lists, m)[j])
  {
    assert Apart(lists[i], lists[j]);
    if m.On? && m.e.Sleep? {
      assert TidyAt(f, lists, i) && TidyAt(f, lists, j);
      NeatInward(Of(f, i), lists[i]);
      NeatInward(Of(f, j), lists[j]);
    }
  }

  ghost predicate OrderlyRun(f: Family, lists: seq<seq<nat>>, moves: seq<Move>)
    requires |f.saved| == |f.head| == |lists|
    decreases moves
  {
    moves == [] || (Orderly(f, lists, moves[0])
      && OrderlyRun(Step(f, moves[0]), ListsAfter(lists, moves[0]), moves[1..]))
  }

  lemma {:induction false} OrderlyPossible(f: Family, lists: seq<seq<nat>>, moves: seq<Move>)
    requires |f.saved| == |f.head| == |lists| && OrderlyRun(f, lists, moves)
    ensures Possible(f, moves) && |Reached(f, moves).head| == |f.head| == |Reached(f, moves).saved|
    decreases moves
  {
    if moves != [] {
      OrderlyPossible(Step(f, moves[0]), ListsAfter(lists, moves[0]), moves[1..]);
    }
  }

  /** The tasks that returned on queue i, in order. */
  function ResumedOn(moves: seq<Move>, i: nat): seq<nat> {
    if moves == [] then []
    else
      (if moves[0].On? && moves[0].i == i && moves[0].e.Resume? then [moves[0].e.t] else []) + ResumedOn(moves[1..], i)
  }

  /** Any number of queues at once: as long as nobody goes to sleep on a queue while its cascade
      lasts, every cascade wakes its own sleepers in last-in-first-out order, none before its
      turn, and no other queue disturbs it. */
  lemma {:induction false} EveryCascade(f: Family, lists: seq<seq<nat>>, moves: seq<Move>, i: nat)
    requires Tidy(f, lists) && i < |lists| && Cascading(Of(f, i), lists[i])
    requires OrderlyRun(f, lists, moves) && forall k | 0 <= k < |moves| ::
             !(moves[k].On? && moves[k].i == i && moves[k].e.Sleep?)
    ensures Possible(f, moves) && |Reached(f, moves).head| == |f.head| == |Reached(f, moves).saved|
    ensures Progress(Of(Reached(f, moves), i), lists[i], ResumedOn(moves, i))
    decreases moves
  {
    OrderlyPossible(f, lists, moves);
    if moves == [] {
      NothingDone(Of(f, i), lists[i]);
    } else {
      var m, rest := moves[0], moves[1..];
      var g, after := Step(f, m), ListsAfter(lists, m);
      TidyStep(f, lists, m);
      EveryCascade(g, after, rest, i);
      if m.On? && m.i == i && m.e.Resume? {
        OneMoreDone(Of(Reached(g, rest), i), lists[i], ResumedOn(rest, i));
      } else {
        assert [] + ResumedOn(rest, i) == ResumedOn(rest, i);
      }
    }
  }
}
