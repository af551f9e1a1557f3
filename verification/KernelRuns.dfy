/** Whole runs: what one step does, the invariant in every reachable state, and the balance of
    a fork and the child's exit. */
module KernelRuns {
  import opened Paging
  import opened Memory
  import opened CowInvariant
  import opened CowSteps
  import opened CowLoops
  import opened Kernel
  import opened KernelForks
  import opened KernelInvariant
  import opened KernelAccess
  import opened VerifyArea
  import opened Counting

  // ---------- one step ----------

  /** What one step does to the pages of the tasks. */
  ghost predicate Effect(s: Sys, e: Event, copies: bool, u: Sys, o: Outcome) {
    match e
    case EvFork(n) =>
      if o.Child? then
        && |s.task| == 64 && 1 <= o.slot < 64 && s.task[o.slot].Null?
        && Forked(s.mem, u.mem, 16 * o.slot, 16 * o.slot + DirCount(s.limit))
        && ChildSees(s.mem, u.mem, n, o.slot, DirCount(s.limit))
        && |u.task| == 64 && u.task[o.slot].Used? && u.task == s.task[o.slot := u.task[o.slot]]
      else u.task == s.task && Unharmed(s.mem, u.mem)
    case EvExit(n) => TornDown(s.mem, u.mem, n) && Survivors(s.task, u.task, n)
    case EvRelease(n) => TornDown(s.mem, u.mem, n) && n < |s.task| && u.task == s.task[n := Null]
    case EvLoad(n, off) => u.task == s.task && o.Read? && Loaded(s.mem, u.mem, n, off, o.w)
    case EvStore(n, off, w) => u.task == s.task && StoredAt(s.mem, u.mem, n, off, w, copies)
    case EvVerify(n, off, size) => u.task == s.task && VerifiedAt(s.mem, u.mem, n, off, size, copies)
  }

  ghost predicate StepIs(s: Sys, e: Event, copies: bool, r: Run<(Sys, Outcome)>)
    requires |s.task| == 64 && Enabled(s, e)
  {
    r == Step(s, e, copies)
  }

  lemma ForkStep(s: Sys, n: nat, copies: bool) returns (r: Run<(Sys, Outcome)>)
    requires SysInv(s) && Enabled(s, EvFork(n))
    ensures StepIs(s, EvFork(n), copies, r) && r.Done? && SysInv(r.value.0)
            && Effect(s, EvFork(n), copies, r.value.0, r.value.1)
  {
    var u, o := ForkKeeps(s, n);
    r := Done((u, o));
  }

  lemma ExitStep(s: Sys, n: nat, copies: bool) returns (r: Run<(Sys, Outcome)>)
    requires SysInv(s) && Enabled(s, EvExit(n))
    ensures StepIs(s, EvExit(n), copies, r) && r.Done? && SysInv(r.value.0)
            && Effect(s, EvExit(n), copies, r.value.0, r.value.1)
  {
    var u := ExitKeeps(s, n);
    r := Done((u, Ok));
  }

  lemma ReleaseStep(s: Sys, n: nat, copies: bool) returns (r: Run<(Sys, Outcome)>)
    requires SysInv(s) && Enabled(s, EvRelease(n))
    ensures StepIs(s, EvRelease(n), copies, r) && r.Done? && SysInv(r.value.0)
            && Effect(s, EvRelease(n), copies, r.value.0, r.value.1)
  {
    var u := ReleaseKeeps(s, n);
    r := Done((u, Ok));
  }

  lemma LoadStep(s: Sys, n: nat, off: nat, copies: bool) returns (r: Run<(Sys, Outcome)>)
    requires SysInv(s) && Enabled(s, EvLoad(n, off))
    ensures StepIs(s, EvLoad(n, off), copies, r) && !r.Panic?
    ensures r.Done? ==> SysInv(r.value.0) && Effect(s, EvLoad(n, off), copies, r.value.0, r.value.1)
  {
    var q := LoadKeeps(s, n, off, copies);
    r := if q.Done? then Done((q.value.0, Read(q.value.1))) else Oom;
  }

  lemma StoreStep(s: Sys, n: nat, off: nat, w: Word, copies: bool) returns (r: Run<(Sys, Outcome)>)
    requires SysInv(s) && Enabled(s, EvStore(n, off, w))
    ensures StepIs(s, EvStore(n, off, w), copies, r) && !r.Panic?
    ensures r.Done? ==> SysInv(r.value.0) && Effect(s, EvStore(n, off, w), copies, r.value.0, r.value.1)
  {
    var q := StoreKeeps(s, n, off, w, copies);
    r := if q.Done? then Done((q.value, Ok)) else Oom;
    StoreStepIs(s, n, off, w, copies, q, r);
  }

  lemma StoreStepIs(s: Sys, n: nat, off: nat, w: Word, copies: bool, q: Run<Sys>, r: Run<(Sys, Outcome)>)
    requires |s.task| == 64 && Enabled(s, EvStore(n, off, w)) && StoreIs(s, n, off, w, copies, q) && !q.Panic?
    requires r == if q.Done? then Done((q.value, Ok)) else Oom
    ensures StepIs(s, EvStore(n, off, w), copies, r)
  {
  }

  lemma VerifyStep(s: Sys, n: nat, off: nat, size: nat, copies: bool) returns (r: Run<(Sys, Outcome)>)
    requires SysInv(s) && Enabled(s, EvVerify(n, off, size))
    ensures StepIs(s, EvVerify(n, off, size), copies, r) && !r.Panic?
    ensures r.Done? ==> SysInv(r.value.0) && Effect(s, EvVerify(n, off, size), copies, r.value.0, r.value.1)
  {
    var q := VerifyKeeps(s, n, off, size, copies);
    r := if q.Done? then Done((q.value, Ok)) else Oom;
  }

  /** No step panics: free_page never meets a free page, fork never meets an existing table,
      exit never meets a bad range. A step fails only for lack of memory. */
  lemma StepKeeps(s: Sys, e: Event, copies: bool) returns (r: Run<(Sys, Outcome)>)
    requires SysInv(s) && Enabled(s, e)
    ensures StepIs(s, e, copies, r) && !r.Panic?
    ensures r.Done? ==> SysInv(r.value.0) && Effect(s, e, copies, r.value.0, r.value.1)
  {
    match e
    case EvFork(n) => r := ForkStep(s, n, copies);
    case EvExit(n) => r := ExitStep(s, n, copies);
    case EvRelease(n) => r := ReleaseStep(s, n, copies);
    case EvLoad(n, off) => r := LoadStep(s, n, off, copies);
    case EvStore(n, off, w) => r := StoreStep(s, n, off, w, copies);
    case EvVerify(n, off, size) => r := VerifyStep(s, n, off, size, copies);
  }

  lemma StepEffect(s: Sys, e: Event, copies: bool, u: Sys, o: Outcome)
    requires SysInv(s) && StepsTo(s, e, copies, u, o)
    ensures SysInv(u) && Effect(s, e, copies, u, o)
  {
    var r := StepKeeps(s, e, copies);
    assert r == Done((u, o));
  }

  // ---------- runs ----------

  /** A run: the states it visits and what its steps returned. */
  datatype Trace = Trace(states: seq<Sys>, events: seq<Event>, outcomes: seq<Outcome>)

  ghost predicate StepsTo(s: Sys, e: Event, copies: bool, u: Sys, o: Outcome) {
    |s.task| == 64 && Enabled(s, e) && StepIs(s, e, copies, Done((u, o)))
  }

  ghost predicate IsRun(t: Trace, copies: bool) {
    && |t.states| == |t.events| + 1 == |t.outcomes| + 1
    && (forall k | 0 <= k < |t.events| :: StepsTo(t.states[k], t.events[k], copies, t.states[k + 1], t.outcomes[k]))
  }

  /** Every state of a run from a good state is good, in both versions of un_wp_page. */
  lemma {:induction false} RunKeeps(t: Trace, copies: bool, k: nat)
    requires IsRun(t, copies) && SysInv(t.states[0]) && k < |t.states|
    ensures SysInv(t.states[k])
  {
    if k > 0 {
      var j := k - 1;
      RunKeeps(t, copies, j);
      assert StepsTo(t.states[j], t.events[j], copies, t.states[j + 1], t.outcomes[j]);
      StepEffect(t.states[j], t.events[j], copies, t.states[k], t.outcomes[j]);
    }
  }

  /** The state main() sets up: boot/head.s's page tables, mem_init(LOW_MEM, end), task 0 with
      its 640KB segment. */
  ghost predicate Booted(s: Sys, end: nat) {
    && LOW_MEM <= end <= 0x100_0000
    && KernelMap(s.mem) && (forall d | 16 <= d < 1024 :: Pde(s.mem, d) == ZERO)
    && s.mem == MemInit(s.mem, LOW_MEM, end)
    && |s.task| == 64 && s.task[0] == Used(Task(0, 0, -1, false, {})) && (forall i | 1 <= i < 64 :: s.task[i] == Null)
    && s.lastPid == 0 && s.limit == 0xA_0000
  }

  lemma BootGood(s: Sys, end: nat)
    requires Booted(s, end)
    ensures SysInv(s) && DirCount(s.limit) == 1
  {
    var m := s.mem;
    assert Pages(s.task) == {};
    forall d, i, f | 16 <= d < 1024 && 0 <= i <= 1024
      ensures !Names(m, d, i, f)
    {
      assert Pde(m, d) == ZERO;
    }
    forall f | 256 <= f < 4096
      ensures Count(m, f) == if f < High(m) then 0 else USED
      ensures Refs(m, f) == {}
    {
      assert m.count[f - 256] == MemInit(m, LOW_MEM, end).count[f - 256];
    }
  }

  // ---------- what every reachable state satisfies ----------

  ghost predicate TaskPage(s: Sys, f: nat) {
    exists n :: 1 <= n < |s.task| && s.task[n].Used? && s.task[n].t.page == f
  }

  /** In every state reachable from boot: each frame is counted exactly once for every table
      entry that names it, every directory entry that uses it as a table and the task_struct
      it may hold; no counter exceeds 63; a writable page lies between LOW_MEM and HIGH_MEMORY
      and is named by one entry only; and no two processes share a pid. */
  lemma Reachable(t: Trace, copies: bool, end: nat, k: nat, f: nat)
    requires IsRun(t, copies) && Booted(t.states[0], end) && k < |t.states| && 256 <= f < High(t.states[k].mem)
    ensures var s := t.states[k];
            && Count(s.mem, f) == |Refs(s.mem, f)| + (if TaskPage(s, f) then 1 else 0)
            && Count(s.mem, f) <= 63
            && PidsDiffer(s.task)
    ensures var m := t.states[k].mem;
            forall d, i | 16 <= d < 1024 && 0 <= i < 1024 && Maps(m, d, i) && Pte(m, d, i).writable
              && Pte(m, d, i).frame == f ::
              Refs(m, f) == {(d, i)} && !TaskPage(t.states[k], f)
    ensures var m := t.states[k].mem;
            forall d, i | 16 <= d < 1024 && 0 <= i < 1024 && Maps(m, d, i) && Pte(m, d, i).writable ::
              256 <= Pte(m, d, i).frame < High(m)
  {
    BootGood(t.states[0], end);
    RunKeeps(t, copies, k);
    var s := t.states[k];
    var owned := Pages(s.task);
    assert TaskPage(s, f) <==> f in owned;
    CountBound(s.mem, owned, f);
    forall d, i | 16 <= d < 1024 && 0 <= i < 1024 && Maps(s.mem, d, i) && Pte(s.mem, d, i).writable
      && Pte(s.mem, d, i).frame == f
      ensures Refs(s.mem, f) == {(d, i)} && f !in owned
    {
      assert Names(s.mem, d, i, f);
      Exclusive(s.mem, owned, d, i, f);
    }
  }

  /** The task_struct page of slot c, if the slot is taken. */
  function PageIn(task: seq<Slot>, c: nat): set<nat> {
    if c < |task| && task[c].Used? then {task[c].t.page} else {}
  }

  /** Page i of d, and now of e, is read-only in both, in its old frame, and that is counted twice. */
  ghost predicate SharedPage(m: Mem, u: Mem, d: nat, e: nat, i: nat) {
    var ro := ReadOnly(Pte(m, d, i));
    && Maps(u, d, i) && Maps(u, e, i) && Pte(u, d, i) == ro && Pte(u, e, i) == ro
    && (ro.frame >= 256 ==> Count(u, ro.frame) >= 2)
  }

  /** What fork leaves shared: every page of the parent that was mapped is read-only in parent and
      child, in the same frame, which is counted at least twice unless it is part of the kernel
      image. A child of task 0 has the 160 image frames, read-only and uncounted. */
  lemma ForkShares(s: Sys, n: nat, c: nat, copies: bool, u: Sys, d: nat, i: nat)
    requires SysInv(s) && StepsTo(s, EvFork(n), copies, u, Child(c)) && i < 1024
    ensures 1 <= n && d / 16 == n && Maps(s.mem, d, i) ==>
              SharedPage(s.mem, u.mem, d, 16 * c + d % 16, i)
    ensures n == 0 && i < 160 ==> Maps(u.mem, 16 * c, i) && Pte(u.mem, 16 * c, i).frame == i
                                  && !Pte(u.mem, 16 * c, i).writable
  {
    StepEffect(s, EvFork(n), copies, u, Child(c));
    if 1 <= n && d / 16 == n && Maps(s.mem, d, i) {
      SharedEntry(s, n, c, u, d, 16 * c + d % 16, i);
    }
    if n == 0 && i < 160 {
      ImageEntry(u, c, i);
    }
  }

  lemma SharedEntry(s: Sys, n: nat, c: nat, u: Sys, d: nat, e: nat, i: nat)
    requires SysInv(s) && SysInv(u) && 1 <= n == d / 16 && n < 64 && 1 <= c < 64 && n != c && e == 16 * c + d % 16
    requires i < 1024 && Maps(s.mem, d, i)
    requires Forked(s.mem, u.mem, 16 * c, 16 * c + DirCount(s.limit))
             && ChildSees(s.mem, u.mem, n, c, DirCount(s.limit))
    ensures SharedPage(s.mem, u.mem, d, e, i)
  {
    var k := DirCount(s.limit);
    InSegment(s, n, d);
    SamePlace(n, c, k, d, e);
    ChildEntry(s.mem, u.mem, n, c, k, d, e, i);
    if Pte(u.mem, d, i).frame >= 256 {
      Twice(u.mem, Pages(u.task), d, e, i, Pte(u.mem, d, i).frame);
    }
  }

  lemma InSegment(s: Sys, n: nat, d: nat)
    requires SysInv(s) && 1 <= n == d / 16 && d < 1024 && Pde(s.mem, d).present
    ensures d % 16 < DirCount(s.limit) <= 16
  {
  }

  lemma SamePlace(n: nat, c: nat, k: nat, d: nat, e: nat)
    requires n == d / 16 && n != c && d % 16 < k <= 16 && e == 16 * c + d % 16
    ensures d == 16 * n + (e - 16 * c) && 16 * c <= e < 16 * c + k && !(16 * c <= d < 16 * c + k)
  {
  }

  lemma ImageEntry(u: Sys, c: nat, i: nat)
    requires SysInv(u) && 1 <= c < 64 && ImageAt(u.mem, 16 * c) && i < 160
    ensures Maps(u.mem, 16 * c, i) && Pte(u.mem, 16 * c, i).frame == i && !Pte(u.mem, 16 * c, i).writable
  {
    assert View(u.mem, 16 * c, i) == Low(i);
  }

  lemma ChildEntry(m: Mem, u: Mem, n: nat, c: nat, k: nat, d: nat, e: nat, i: nat)
    requires 1 <= n && ChildSees(m, u, n, c, k) && Forked(m, u, 16 * c, 16 * c + k) && i < 1024 && Maps(m, d, i)
    requires 16 <= d < 1024 && d == 16 * n + (e - 16 * c) && 16 * c <= e < 16 * c + k && !(16 * c <= d < 16 * c + k)
    ensures Maps(u, d, i) && Maps(u, e, i) && Pte(u, d, i) == ReadOnly(Pte(m, d, i))
            && Pte(u, e, i) == ReadOnly(Pte(m, d, i))
  {
    assert CopyAt(m, u, 16 * n, 16 * c, e);
    assert ProtectedDir(m, u, d);
    assert BothRead(m, u, d, e, i);
  }

  lemma Twice(m: Mem, owned: set<nat>, d: nat, e: nat, i: nat, f: nat)
    requires Inv(m, owned) && 16 <= d < 1024 && 16 <= e < 1024 && d != e && i < 1024
    requires Names(m, d, i, f) && Names(m, e, i, f) && f >= 256
    ensures Count(m, f) >= 2
  {
    assert (d, i) in Refs(m, f) && (e, i) in Refs(m, f);
    if |Refs(m, f)| == 1 {
      One(Refs(m, f), (d, i), (e, i));
    }
  }

  /** A load, store or verify_area of task c inside its own 64MB. */
  predicate OwnAccess(e: Event, c: nat) {
    e.n == c && (e.EvLoad? || e.EvStore? || (e.EvVerify? && e.off + e.size <= 0x400_0000))
  }

  /** Outside the 64MB of task c nothing changed. */
  ghost predicate Beside(m: Mem, n: Mem, c: nat) {
    SameImage(m, n) && forall a | 16 <= a < 1024 && !(16 * c <= a < 16 * c + 16) :: SameDir(m, n, a)
  }

  lemma OwnStep(s: Sys, e: Event, copies: bool, u: Sys, o: Outcome, c: nat)
    requires SysInv(s) && StepsTo(s, e, copies, u, o) && OwnAccess(e, c)
    ensures u.task == s.task && Beside(s.mem, u.mem, c)
  {
    StepEffect(s, e, copies, u, o);
    if e.EvLoad? {
      OwnLoad(s, c, e.off, copies, u, o);
    } else if e.EvStore? {
      OwnStore(s, c, e.off, e.w, copies, u, o);
    } else {
      OwnVerify(s, c, e.off, e.size, copies, u, o);
    }
  }

  lemma OwnLoad(s: Sys, c: nat, off: nat, copies: bool, u: Sys, o: Outcome)
    requires Effect(s, EvLoad(c, off), copies, u, o) && 1 <= c < 64 && off < s.limit <= 0x400_0000
    ensures u.task == s.task && Beside(s.mem, u.mem, c)
  {
    ServedBeside(s.mem, u.mem, c, off, s.limit);
  }

  lemma OwnStore(s: Sys, c: nat, off: nat, w: Word, copies: bool, u: Sys, o: Outcome)
    requires Effect(s, EvStore(c, off, w), copies, u, o) && 1 <= c < 64 && off < s.limit <= 0x400_0000
    ensures u.task == s.task && Beside(s.mem, u.mem, c)
  {
    ServedBeside(s.mem, u.mem, c, off, s.limit);
  }

  lemma OwnVerify(s: Sys, c: nat, off: nat, size: nat, copies: bool, u: Sys, o: Outcome)
    requires Effect(s, EvVerify(c, off, size), copies, u, o) && 1 <= c < 64 && 1 <= size && off + size <= 0x400_0000
    ensures u.task == s.task && Beside(s.mem, u.mem, c)
  {
    VerifiedBeside(s.mem, u.mem, c, off, size, copies);
  }

  lemma ServedBeside(m: Mem, n: Mem, c: nat, off: nat, limit: nat)
    requires 1 <= c < 64 && off < limit <= 0x400_0000 && Served(m, n, DirOf(Base(c) + off), TabOf(Base(c) + off))
    ensures Beside(m, n, c)
  {
    Where(c, off, limit);
    forall a | 16 <= a < 1024 && !(16 * c <= a < 16 * c + 16)
      ensures SameDir(m, n, a)
    {
    }
  }

  lemma VerifiedBeside(m: Mem, n: Mem, c: nat, off: nat, size: nat, copies: bool)
    requires 1 <= c < 64 && 1 <= size && off + size <= 0x400_0000 && VerifiedAt(m, n, c, off, size, copies)
    ensures Beside(m, n, c)
  {
    AreaPages(Base(c), off, size);
    var first := (Base(c) + off) / 4096;
    var next := first + PageCount(off, size);
    forall a | 16 <= a < 1024 && !(16 * c <= a < 16 * c + 16)
      ensures SameDir(m, n, a)
    {
      SweptBeside(m, n, first, next, c, a, copies);
    }
  }

  lemma SweptBeside(m: Mem, n: Mem, first: nat, next: nat, c: nat, a: nat, copies: bool)
    requires Swept(m, n, first, next, copies) && 16384 * c <= first && next <= 16384 * c + 16384
    requires 16 <= a < 1024 && !(16 * c <= a < 16 * c + 16)
    ensures SameDir(m, n, a)
  {
    forall i | 0 <= i < 1024
      ensures Maps(n, a, i) == Maps(m, a, i) && View(n, a, i) == View(m, a, i)
      ensures Maps(m, a, i) ==> Pte(n, a, i) == Pte(m, a, i)
    {
      UntouchedAt(m, n, a, i, a * 1024 + i, first, next, copies);
    }
  }

  lemma UntouchedAt(m: Mem, n: Mem, a: nat, i: nat, q: nat, first: nat, next: nat, copies: bool)
    requires q == a * 1024 + i && 16 <= a < 1024 && i < 1024 && Swept(m, n, first, next, copies) && !(first <= q < next)
    ensures Maps(n, a, i) == Maps(m, a, i) && View(n, a, i) == View(m, a, i)
    ensures Maps(m, a, i) ==> Pte(n, a, i) == Pte(m, a, i)
  {
    assert q / 1024 == a && q % 1024 == i;
    assert Untouched(m, n, q);
  }

  lemma {:induction false} OwnRun(t: Trace, copies: bool, c: nat, k: nat)
    requires IsRun(t, copies) && SysInv(t.states[0]) && k < |t.states|
    requires forall j | 0 <= j < |t.events| :: OwnAccess(t.events[j], c)
    ensures SysInv(t.states[k]) && t.states[k].task == t.states[0].task && Beside(t.states[0].mem, t.states[k].mem, c)
  {
    if k == 0 {
      assert forall a | 16 <= a < 1024 :: SameDir(t.states[0].mem, t.states[0].mem, a);
    } else {
      var j := k - 1;
      OwnRun(t, copies, c, j);
      assert StepsTo(t.states[j], t.events[j], copies, t.states[j + 1], t.outcomes[j]);
      StepEffect(t.states[j], t.events[j], copies, t.states[k], t.outcomes[j]);
      OwnStep(t.states[j], t.events[j], copies, t.states[k], t.outcomes[j], c);
      BesideTwice(t.states[0].mem, t.states[j].mem, t.states[k].mem, c);
    }
  }

  lemma BesideTwice(m: Mem, p: Mem, n: Mem, c: nat)
    requires Beside(m, p, c) && Beside(p, n, c)
    ensures Beside(m, n, c)
  {
    forall a | 16 <= a < 1024 && !(16 * c <= a < 16 * c + 16)
      ensures SameDir(m, n, a)
    {
      assert SameDir(m, p, a) && SameDir(p, n, a);
    }
  }

  lemma ForkExitUndoes(m: Mem, u: Mem, w: Mem, v: Mem, c: nat, k: nat)
    requires 1 <= c < 64 && k <= 16 && Forked(m, u, 16 * c, 16 * c + k) && Beside(u, w, c) && TornDown(w, v, c)
    ensures Undone(m, v, 16 * c, 16)
  {
    forall a | 16 <= a < 1024 && !(16 * c <= a < 16 * c + 16)
      ensures ProtectedDir(m, v, a)
    {
      assert ProtectedDir(m, u, a) && SameDir(u, w, a) && SameDir(w, v, a);
    }
  }

  lemma ForkExitPages(s: Sys, c: nat, u: Sys, v: Sys)
    requires SysInv(s) && SysInv(u) && SysInv(v) && 1 <= c < 64 && s.task[c].Null?
    requires u.task[c].Used? && u.task == s.task[c := u.task[c]] && Survivors(u.task, v.task, c)
    ensures Pages(v.task) == Pages(s.task) + PageIn(v.task, c) && Pages(s.task) !! PageIn(v.task, c)
  {
    forall f
      ensures f in Pages(v.task) <==> f in Pages(s.task) || (v.task[c].Used? && f == u.task[c].t.page)
    {
      if f in Pages(v.task) {
        var j :| 1 <= j < 64 && v.task[j].Used? && v.task[j].t.page == f;
        assert j != c ==> SameTask(v.task[j], u.task[j]) && s.task[j].Used? && s.task[j].t.page == f;
      }
      if f in Pages(s.task) {
        var j :| 1 <= j < 64 && s.task[j].Used? && s.task[j].t.page == f;
        assert SameTask(v.task[j], u.task[j]);
        assert v.task[j].Used? && v.task[j].t.page == f;
      }
    }
    forall j | 1 <= j < 64 && s.task[j].Used?
      ensures s.task[j].t.page != u.task[c].t.page
    {
      assert u.task[j] == s.task[j];
    }
  }

  /** A fork and the child's exit, whatever the child loads, stores or has verified in between,
      give every reference back, except that a zombie keeps its task_struct page; and all pages
      look as before the fork. */
  lemma ForkExitBalances(s: Sys, n: nat, c: nat, copies: bool, t: Trace, v: Sys)
    requires SysInv(s) && IsRun(t, copies) && StepsTo(s, EvFork(n), copies, t.states[0], Child(c))
    requires forall k | 0 <= k < |t.events| :: OwnAccess(t.events[k], c)
    requires StepsTo(t.states[|t.states| - 1], EvExit(c), copies, v, Ok)
    ensures forall f | 256 <= f < High(s.mem) ::
              Count(v.mem, f) == Count(s.mem, f) + Own(PageIn(v.task, c), f)
    ensures forall d, i | 16 <= d < 1024 && 0 <= i < 1024 :: View(v.mem, d, i) == View(s.mem, d, i)
  {
    var u, w := t.states[0], t.states[|t.states| - 1];
    StepEffect(s, EvFork(n), copies, u, Child(c));
    OwnRun(t, copies, c, |t.states| - 1);
    StepEffect(w, EvExit(c), copies, v, Ok);
    RangeAbsent(s, c);
    ForkExitUndoes(s.mem, u.mem, w.mem, v.mem, c, DirCount(s.limit));
    ForkExitPages(s, c, u, v);
    SumsBalance(s, c, v);
    ViewsReturn(s.mem, v.mem, 16 * c);
  }

  lemma SumsBalance(s: Sys, c: nat, v: Sys)
    requires SysInv(s) && SysInv(v) && 1 <= c < 64
    requires Undone(s.mem, v.mem, 16 * c, 16) && forall e | 16 * c <= e < 16 * c + 16 :: !Pde(s.mem, e).present
    requires Pages(v.task) == Pages(s.task) + PageIn(v.task, c) && Pages(s.task) !! PageIn(v.task, c)
    ensures forall f | 256 <= f < High(s.mem) ::
              Count(v.mem, f) == Count(s.mem, f) + Own(PageIn(v.task, c), f)
  {
    forall f | 256 <= f < High(s.mem)
      ensures Count(v.mem, f) == Count(s.mem, f) + Own(PageIn(v.task, c), f)
    {
      UndoneRefs(s.mem, v.mem, 16 * c, 16, f);
    }
  }

  lemma ViewsReturn(m: Mem, n: Mem, t: nat)
    requires 16 <= t && t + 16 <= 1024 && Undone(m, n, t, 16) && forall e | t <= e < t + 16 :: !Pde(m, e).present
    ensures forall d, i | 16 <= d < 1024 && 0 <= i < 1024 :: View(n, d, i) == View(m, d, i)
  {
    forall d, i | 16 <= d < 1024 && 0 <= i < 1024
      ensures View(n, d, i) == View(m, d, i)
    {
      assert t <= d < t + 16 || ProtectedDir(m, n, d);
    }
  }
}
