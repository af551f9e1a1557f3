/** What holds in every state that fork, exit, faults and user accesses can reach. */
module KernelInvariant {
  import opened Paging
  import opened Memory
  import opened CowInvariant
  import opened CowSteps
  import opened CowLoops
  import opened Kernel
  import opened KernelForks
  import Pids

  /** The frames of the task_struct pages. */
  ghost function Pages(task: seq<Slot>): set<nat> {
    set n: nat | 1 <= n < |task| && task[n].Used? :: task[n].t.page
  }

  ghost predicate PagesDiffer(task: seq<Slot>) {
    forall a, b | 1 <= a < b < |task| && task[a].Used? && task[b].Used? :: task[a].t.page != task[b].t.page
  }

  ghost predicate PidsDiffer(task: seq<Slot>) {
    && (forall a, b | 0 <= a < b < |task| && task[a].Used? && task[b].Used? :: task[a].t.pid != task[b].t.pid)
    && (forall a | 0 <= a < |task| && task[a].Used? :: task[a].t.pid <= Pids.MAX_PID)
  }

  /** Only live tasks have page tables, and only inside their segment: an empty slot or a
      zombie has 16 absent directory entries. */
  ghost predicate Confined(s: Sys) {
    forall d | 16 <= d < 1024 && Pde(s.mem, d).present :: Alive(s, d / 16) && d % 16 < DirCount(s.limit)
  }

  ghost predicate SysInv(s: Sys) {
    && |s.task| == 64 && s.task[0].Used? && s.task[0].t.page == 0
    && s.lastPid <= Pids.MAX_PID && 0 < s.limit <= 0x400_0000
    && PagesDiffer(s.task) && PidsDiffer(s.task)
    && Confined(s)
    && Inv(s.mem, Pages(s.task))
  }

  // ---------- fork ----------

  lemma RangeAbsent(s: Sys, c: nat)
    requires SysInv(s) && 1 <= c < 64 && !Alive(s, c)
    ensures forall e | 16 * c <= e < 16 * c + 16 :: !Pde(s.mem, e).present
  {
    forall e | 16 * c <= e < 16 * c + 16
      ensures !Pde(s.mem, e).present
    {
      assert e / 16 == c;
    }
  }

  lemma AddPage(task: seq<Slot>, nr: nat, child: Task)
    requires 1 <= nr < |task| && task[nr].Null?
    ensures Pages(task[nr := Used(child)]) == Pages(task) + {child.page}
  {
    var u := task[nr := Used(child)];
    forall f | f in Pages(task) + {child.page}
      ensures f in Pages(u)
    {
      if f in Pages(task) {
        var n :| 1 <= n < |task| && task[n].Used? && task[n].t.page == f;
        assert u[n].Used? && u[n].t.page == f;
      } else {
        assert u[nr].t.page == f;
      }
    }
  }

  lemma NullAgain(task: seq<Slot>, nr: nat)
    requires nr < |task| && task[nr].Null?
    ensures task[nr := Null] == task
  {
  }

  /** Directory entries of n after a fork stay inside live segments. */
  lemma ForkConfined(s: Sys, u: Sys, c: nat)
    requires SysInv(s) && 1 <= c < 64 && |u.task| == 64 && u.limit == s.limit
    requires forall a | 0 <= a < 64 && Alive(s, a) :: Alive(u, a)
    requires Forked(s.mem, u.mem, 16 * c, 16 * c + DirCount(s.limit)) && Alive(u, c)
    ensures Confined(u)
  {
    forall d | 16 <= d < 1024 && Pde(u.mem, d).present
      ensures Alive(u, d / 16) && d % 16 < DirCount(u.limit)
    {
      if 16 * c <= d < 16 * c + DirCount(s.limit) {
        assert d / 16 == c && d % 16 == d - 16 * c;
      } else {
        assert ProtectedDir(s.mem, u.mem, d);
      }
    }
  }

  lemma UndoneConfined(s: Sys, u: Sys, c: nat)
    requires SysInv(s) && 1 <= c < 64 && u.task == s.task && u.limit == s.limit
    requires Undone(s.mem, u.mem, 16 * c, DirCount(s.limit))
    ensures Confined(u)
  {
    forall d | 16 <= d < 1024 && Pde(u.mem, d).present
      ensures Alive(u, d / 16) && d % 16 < DirCount(u.limit)
    {
      assert ProtectedDir(s.mem, u.mem, d);
    }
  }

  /** n differs from m by a frame taken for the kernel: no table, no page changed. */
  lemma TookForked(m: Mem, m1: Mem, n: Mem, g: nat, owned: set<nat>, lo: nat, hi: nat)
    requires Inv(m, owned) && Took(m, m1, g) && Forked(m1, n, lo, hi)
    ensures Forked(m, n, lo, hi)
  {
    TookKeeps(m, m1, g, owned);
    TookViews(m, m1, g, owned);
    SameNames(m, m1);
    forall a | 16 <= a < 1024 && !(lo <= a < hi)
      ensures ProtectedDir(m, n, a)
    {
      assert ProtectedDir(m, m1, a);
      ProtectedTransitive(m, m1, n, a);
    }
  }

  /** copy_process when memory suffices or runs out: never a panic, and the books balance. */
  lemma CopyProcessKeeps(s: Sys, parent: nat, nr: nat) returns (u: Sys, o: Outcome)
    requires SysInv(s) && Alive(s, parent) && 1 <= nr < 64 && s.task[nr].Null?
    requires parent == 0 ==> DirCount(s.limit) == 1
    requires !Pids.Held(PidsOf(s.task), s.lastPid)
    ensures CopyProcess(s, parent, nr) == Done((u, o)) && SysInv(u)
    ensures o == Child(nr) || o == Failed
    ensures o == Failed ==> u.task == s.task && u.mem.count == s.mem.count
                            && Undone(s.mem, u.mem, 16 * nr, DirCount(s.limit))
    ensures o == Child(nr) ==> && u.task[nr].Used? && u.task == s.task[nr := u.task[nr]]
                               && Forked(s.mem, u.mem, 16 * nr, 16 * nr + DirCount(s.limit))
                               && ChildSees(s.mem, u.mem, parent, nr, DirCount(s.limit))
  {
    var (m1, g) := GetFreePage(s.mem);
    GetFreeEffect(s.mem);
    RangeAbsent(s, nr);
    if g == 0 {
      u, o := s, Failed;
      ForkedSelf(s.mem, 16 * nr, 16 * nr + DirCount(s.limit));
    } else {
      var owned := Pages(s.task);
      TookKeeps(s.mem, m1, g, owned);
      SameNames(s.mem, m1);
      var n, ok := CopyMemKeeps(m1, owned + {g}, parent, nr, s.limit);
      TookForked(s.mem, m1, n, g, owned, 16 * nr, 16 * nr + DirCount(s.limit));
      if ok {
        o := Child(nr);
        TookSees(s.mem, m1, n, g, owned, parent, nr, DirCount(s.limit));
        u := ForkDone(s, m1, n, parent, nr, g);
      } else {
        o := Failed;
        u := ForkUndone(s, m1, n, nr, g);
      }
    }
  }

  lemma ForkDone(s: Sys, m1: Mem, n: Mem, parent: nat, nr: nat, g: nat) returns (u: Sys)
    requires SysInv(s) && Alive(s, parent) && 1 <= nr < 64 && s.task[nr].Null? && !Pids.Held(PidsOf(s.task), s.lastPid)
    requires g !in Pages(s.task) && Inv(n, Pages(s.task) + {g})
    requires Forked(s.mem, n, 16 * nr, 16 * nr + DirCount(s.limit))
    ensures u == s.(mem := n, task := s.task[nr := Used(Task(g, s.lastPid, s.task[parent].t.pid, false, {}))])
    ensures SysInv(u)
  {
    var child := Task(g, s.lastPid, s.task[parent].t.pid, false, {});
    u := s.(mem := n, task := s.task[nr := Used(child)]);
    AddPage(s.task, nr, child);
    ForkConfined(s, u, nr);
    forall a, b | 1 <= a < b < 64 && u.task[a].Used? && u.task[b].Used?
      ensures u.task[a].t.page != u.task[b].t.page
    {
      assert a != nr ==> s.task[a].t.page in Pages(s.task);
      assert b != nr ==> s.task[b].t.page in Pages(s.task);
    }
    forall a, b | 0 <= a < b < 64 && u.task[a].Used? && u.task[b].Used?
      ensures u.task[a].t.pid != u.task[b].t.pid
    {
      assert a != nr ==> PidsOf(s.task)[a] == s.task[a].t.pid;
      assert b != nr ==> PidsOf(s.task)[b] == s.task[b].t.pid;
    }
  }

  lemma TookSees(m: Mem, m1: Mem, n: Mem, g: nat, owned: set<nat>, parent: nat, child: nat, k: nat)
    requires Inv(m, owned) && Took(m, m1, g) && parent < 64 && child < 64 && k <= 16
             && ChildSees(m1, n, parent, child, k)
    ensures ChildSees(m, n, parent, child, k)
  {
    TookKeeps(m, m1, g, owned);
    TookViews(m, m1, g, owned);
    SameNames(m, m1);
    if parent != 0 {
      forall e | 16 * child <= e < 16 * child + k
        ensures CopyAt(m, n, 16 * parent, 16 * child, e)
      {
        assert CopyAt(m1, n, 16 * parent, 16 * child, e);
      }
    }
  }

  lemma ReturnedCounts(m: Mem, m1: Mem, n: Mem, g: nat)
    requires Took(m, m1, g) && n.count == m1.count
    ensures SetCount(n, g, 0).count == m.count
  {
    var r := SetCount(n, g, 0);
    forall j | 0 <= j < 3840
      ensures r.count[j] == m.count[j]
    {
      assert Count(m1, j + 256) == m1.count[j];
      assert Count(m, j + 256) == m.count[j];
    }
  }

  lemma ReturnedUndone(m: Mem, n: Mem, r: Mem, t: nat, k: nat)
    requires 16 <= t && t + k <= 1024 && Undone(m, n, t, k)
    requires SameTables(n, r) && SameImage(n, r)
    requires forall d, i | 16 <= d < 1024 && 0 <= i < 1024 :: View(r, d, i) == View(n, d, i)
    ensures Undone(m, r, t, k)
  {
    SameNames(n, r);
    forall a | 16 <= a < 1024 && !(t <= a < t + k)
      ensures ProtectedDir(m, r, a)
    {
      assert ProtectedDir(m, n, a);
    }
  }

  lemma ForkUndone(s: Sys, m1: Mem, n: Mem, nr: nat, g: nat) returns (u: Sys)
    requires SysInv(s) && 1 <= nr < 64 && s.task[nr].Null? && Took(s.mem, m1, g)
    requires g !in Pages(s.task) && Inv(n, Pages(s.task) + {g})
    requires Undone(m1, n, 16 * nr, DirCount(s.limit)) && Forked(s.mem, n, 16 * nr, 16 * nr + DirCount(s.limit))
             && n.count == m1.count
    ensures FreePage(n, g * 4096) == Done(u.mem) && u == s.(mem := u.mem, task := s.task[nr := Null])
    ensures SysInv(u) && u.task == s.task && u.mem.count == s.mem.count
            && Undone(s.mem, u.mem, 16 * nr, DirCount(s.limit))
  {
    var owned := Pages(s.task);
    FreeOwned(n, owned + {g}, g);
    assert owned + {g} - {g} == owned;
    var r := SetCount(n, g, 0);
    ReturnedCounts(s.mem, m1, n, g);
    ReturnedUndone(s.mem, n, r, 16 * nr, DirCount(s.limit));
    NullAgain(s.task, nr);
    u := s.(mem := r, task := s.task[nr := Null]);
    UndoneConfined(s, u, nr);
  }

  /** A failed fork: every count is what it was, every page is mapped where it was and looks as
      it did; in the parent, entries may have lost their R/W bit. */
  ghost predicate Unharmed(m: Mem, r: Mem) {
    && r.count == m.count && SameImage(m, r)
    && (forall d | 16 <= d < 1024 :: Pde(r, d).present == Pde(m, d).present)
    && (forall d, i | 16 <= d < 1024 && 0 <= i < 1024 ::
          && Maps(r, d, i) == Maps(m, d, i) && View(r, d, i) == View(m, d, i)
          && (Maps(m, d, i) ==> Pte(r, d, i) == Pte(m, d, i) || Pte(r, d, i) == ReadOnly(Pte(m, d, i))))
  }

  lemma UndoneUnharmed(m: Mem, r: Mem, t: nat, k: nat)
    requires 16 <= t && t + k <= 1024 && Undone(m, r, t, k) && r.count == m.count
    requires forall e | t <= e < t + k :: !Pde(m, e).present
    ensures Unharmed(m, r)
  {
    forall d | 16 <= d < 1024
      ensures Pde(r, d).present == Pde(m, d).present
    {
      assert t <= d < t + k || ProtectedDir(m, r, d);
    }
    forall d, i | 16 <= d < 1024 && 0 <= i < 1024
      ensures Maps(r, d, i) == Maps(m, d, i) && View(r, d, i) == View(m, d, i)
      ensures Maps(m, d, i) ==> Pte(r, d, i) == Pte(m, d, i) || Pte(r, d, i) == ReadOnly(Pte(m, d, i))
    {
      assert t <= d < t + k || ProtectedDir(m, r, d);
    }
  }

  /** After a failed fork, a store to a page that lost its R/W bit gets the bit back without
      allocating: the entry is again what it was. */
  lemma BitRestored(m: Mem, r: Mem, owned: set<nat>, d: nat, i: nat, copies: bool)
    requires Inv(m, owned) && Unharmed(m, r) && 16 <= d < 1024 && i < 1024
    requires Maps(m, d, i) && Pte(m, d, i).writable && !Pte(r, d, i).writable
    ensures UnWpPage(r, PteIndex(r, d, i), copies) == Done(Poke(r, PteIndex(r, d, i), Pte(m, d, i)))
  {
    var f := Pte(m, d, i).frame;
    assert Maps(r, d, i);
    assert Count(r, f) == Count(m, f) == 1;
    assert ReadWrite(Pte(r, d, i)) == Pte(m, d, i);
  }

  lemma ForkKeeps(s: Sys, parent: nat) returns (u: Sys, o: Outcome)
    requires SysInv(s) && Alive(s, parent) && (parent == 0 ==> DirCount(s.limit) == 1)
    ensures Fork(s, parent) == Done((u, o)) && SysInv(u) && (o.Child? || o.Failed?)
    ensures o == Failed ==> u.task == s.task && Unharmed(s.mem, u.mem)
    ensures o.Child? ==> && 1 <= o.slot < 64 && s.task[o.slot].Null? && u.task[o.slot].Used?
                         && u.task == s.task[o.slot := u.task[o.slot]]
                                      && Forked(s.mem, u.mem, 16 * o.slot, 16 * o.slot + DirCount(s.limit))
                                      && ChildSees(s.mem, u.mem, parent, o.slot, DirCount(s.limit))
  {
    Pids.FindPidFresh(PidsOf(s.task), s.lastPid);
    var s1 := s.(lastPid := Pids.FindPid(PidsOf(s.task), s.lastPid));
    var nr := EmptySlot(s.task, 1);
    if nr < 0 {
      u, o := s1, Failed;
    } else {
      u, o := CopyProcessKeeps(s1, parent, nr);
      if o == Failed {
        RangeAbsent(s, nr);
        UndoneUnharmed(s.mem, u.mem, 16 * nr, DirCount(s.limit));
      }
    }
  }

  // ---------- exit ----------

  /** Slots hold the same processes with the same task_struct pages. */
  lemma SameSlots(task: seq<Slot>, other: seq<Slot>)
    requires |task| == |other|
    requires forall j | 0 <= j < |task| :: other[j].Used? == task[j].Used?
    requires forall j | 0 <= j < |task| && task[j].Used? ::
             other[j].t.page == task[j].t.page && other[j].t.pid == task[j].t.pid
    ensures Pages(other) == Pages(task)
    ensures PagesDiffer(task) ==> PagesDiffer(other)
    ensures PidsDiffer(task) ==> PidsDiffer(other)
  {
    forall f | f in Pages(task)
      ensures f in Pages(other)
    {
      var n :| 1 <= n < |task| && task[n].Used? && task[n].t.page == f;
      assert other[n].Used? && other[n].t.page == f;
    }
    forall f | f in Pages(other)
      ensures f in Pages(task)
    {
      var n :| 1 <= n < |other| && other[n].Used? && other[n].t.page == f;
      assert task[n].Used? && task[n].t.page == f;
    }
  }

  lemma DropPage(task: seq<Slot>, n: nat)
    requires 1 <= n < |task| && task[n].Used? && PagesDiffer(task)
    ensures Pages(task[n := Null]) == Pages(task) - {task[n].t.page}
  {
    var u := task[n := Null];
    forall f | f in Pages(task) - {task[n].t.page}
      ensures f in Pages(u)
    {
      var j :| 1 <= j < |task| && task[j].Used? && task[j].t.page == f;
      assert u[j].Used? && u[j].t.page == f;
    }
    forall f | f in Pages(u)
      ensures f in Pages(task) && f != task[n].t.page
    {
      var j :| 1 <= j < |u| && u[j].Used? && u[j].t.page == f;
      assert task[j].Used? && task[j].t.page == f;
    }
  }

  /** Task n's pages are gone; every other page is mapped and looks as before. */
  ghost predicate TornDown(m: Mem, r: Mem, n: nat) {
    && SameImage(m, r)
    && (forall a | 16 <= a < 1024 && !(16 * n <= a < 16 * n + 16) :: SameDir(m, r, a))
    && (forall a | 16 * n <= a < 16 * n + 16 :: !Pde(r, a).present)
  }

  lemma ReleaseKeeps(s: Sys, n: nat) returns (u: Sys)
    requires SysInv(s) && 1 <= n < 64 && s.task[n].Used? && s.task[n].t.zombie
    ensures Release(s, n) == Done(u) && SysInv(u) && u.task == s.task[n := Null]
    ensures TornDown(s.mem, u.mem, n)
  {
    var f := s.task[n].t.page;
    var owned := Pages(s.task);
    assert f in owned;
    FreeOwned(s.mem, owned, f);
    u := s.(mem := SetCount(s.mem, f, 0), task := s.task[n := Null]);
    DropPage(s.task, n);
    SameNames(s.mem, u.mem);
    RangeAbsent(s, n);
    forall a | 16 <= a < 1024
      ensures SameDir(s.mem, u.mem, a)
    {
      assert Pde(u.mem, a) == Pde(s.mem, a);
    }
    forall d | 16 <= d < 1024 && Pde(u.mem, d).present
      ensures Alive(u, d / 16) && d % 16 < DirCount(u.limit)
    {
      assert Alive(s, d / 16);
    }
  }

  lemma TearDown(s: Sys, n: nat) returns (r: Mem)
    requires SysInv(s) && 1 <= n && Alive(s, n)
    ensures FreePageTables(s.mem, Base(n), s.limit) == Done(r)
    ensures FreePageTables(r, Base(n), s.limit) == Done(r)
    ensures Inv(r, Pages(s.task)) && TornDown(s.mem, r, n)
  {
    var d, k := 16 * n, DirCount(s.limit);
    assert DirOf(Base(n)) == d;
    FreeDirsKeep(s.mem, Pages(s.task), d, k);
    r := FreeDirs(s.mem, d, k).value;
    FreeDirsIdle(r, d, k);
    forall a | d <= a < d + 16
      ensures !Pde(r, a).present
    {
      assert a % 16 == a - d;
      if a >= d + k {
        assert SameDir(s.mem, r, a);
      }
    }
  }

  /** The task table after an exit: slot n holds a zombie or nothing, the others are the same
      processes. */
  ghost predicate Survivors(task: seq<Slot>, other: seq<Slot>, n: nat) {
    && |task| == 64 == |other| && n < 64
    && (forall j | 0 <= j < 64 && j != n :: SameTask(other[j], task[j]))
    && (other[n].Used? ==> task[n].Used? && other[n].t.zombie && other[n].t.page == task[n].t.page)
  }

  ghost predicate ZombieChild(task: seq<Slot>, pid: nat, n: nat) {
    exists i :: 0 <= i < n <= |task| && task[i].Used? && task[i].t.father == pid && task[i].t.zombie
  }

  /** do_exit hands every child of the exiting task to process 1, changes no other father,
      and signals slot 1 exactly when one of the children was a zombie. */
  lemma {:induction false} Adoption(task: seq<Slot>, pid: nat, n: nat)
    requires |task| == 64 && n <= 64
    ensures forall i | 0 <= i < 64 && task[i].Used? ::
              var r := Reparent(task, pid, n);
              && r[i].Used?
              && r[i].t.father == (if i < n && task[i].t.father == pid then 1 else task[i].t.father)
              && r[i].t.signals == task[i].t.signals + (if i == 1 && ZombieChild(task, pid, n) then {SIGCHLD} else {})
  {
    if n > 0 {
      Adoption(task, pid, n - 1);
      var p := Reparent(task, pid, n - 1);
      assert SameTask(p[n - 1], task[n - 1]);
      assert ZombieChild(task, pid, n) <==>
        ZombieChild(task, pid, n - 1) || (task[n - 1].Used? && task[n - 1].t.father == pid && task[n - 1].t.zombie);
    }
  }

  /** The father an exiting task reports to: its own, or process 1 if it is its own father. */
  function Reported(t: Task): int {
    if t.father == t.pid then 1 else t.father
  }

  /** Task j after task n has exited and there was a task to report to. It keeps its pid and task
      page. If it was a child of n, it now belongs to process 1. SIGCHLD is newly pending exactly if
      it is the task n reports to, or sits in slot 1 and a child of n was a zombie. Task n itself is
      a zombie. */
  ghost function Bereaved(task: seq<Slot>, j: nat, n: nat): Task
    requires n < |task| && task[n].Used? && j < |task| && task[j].Used?
  {
    var t, pid := task[j].t, task[n].t.pid;
    Task(t.page, t.pid, if t.father == pid then 1 else t.father, t.zombie || j == n,
      t.signals + (if t.pid == Reported(task[n].t) then {SIGCHLD} else {})
        + (if j == 1 && ZombieChild(task, pid, |task|) then {SIGCHLD} else {}))
  }

  /** The task table after task n has exited; if there is no task to report to, slot n is empty. */
  ghost predicate Departed(task: seq<Slot>, other: seq<Slot>, n: nat)
    requires n < |task| && task[n].Used?
  {
    var told := exists i :: 0 <= i < |task| && task[i].Used? && task[i].t.pid == Reported(task[n].t);
    && |other| == |task|
    && (forall j | 0 <= j < |task| && task[j].Null? :: other[j].Null?)
    && (!told ==> other[n].Null?)
    && forall j | 0 <= j < |task| && task[j].Used? && (j != n || told) :: other[j] == Used(Bereaved(task, j, n))
  }

  lemma HeldPid(task: seq<Slot>, pid: nat)
    ensures Pids.Held(PidsOf(task), pid) <==> exists i :: 0 <= i < |task| && task[i].Used? && task[i].t.pid == pid
    ensures Pids.Held(PidsOf(task), pid) ==> var i := Pids.SlotOf(PidsOf(task), pid);
            i < |task| && task[i].Used? && task[i].t.pid == pid
  {
    if i :| 0 <= i < |task| && task[i].Used? && task[i].t.pid == pid {
      assert PidsOf(task)[i] == pid;
    }
  }

  /** The table when tell_father is called. */
  ghost predicate Orphaned(task: seq<Slot>, gone: seq<Slot>, n: nat)
    requires |task| == 64 && n < 64 && task[n].Used?
  {
    var pid := task[n].t.pid;
    && |gone| == 64 && PidsOf(gone) == PidsOf(task)
    && (forall j | 0 <= j < 64 && task[j].Null? :: gone[j].Null?)
    && forall j | 0 <= j < 64 && task[j].Used? :: gone[j] == Used(HandedOver(task, j, n, pid))
  }

  ghost function HandedOver(task: seq<Slot>, j: nat, n: nat, pid: nat): Task
    requires |task| == 64 && j < 64 && task[j].Used?
  {
    var t := task[j].t;
    Task(t.page, t.pid, if t.father == pid then 1 else t.father, t.zombie || j == n,
      t.signals + if j == 1 && ZombieChild(task, pid, 64) then {SIGCHLD} else {})
  }

  lemma OneOrphaned(task: seq<Slot>, adopted: seq<Slot>, gone: seq<Slot>, n: nat, j: nat, pid: nat)
    requires |task| == 64 && n < 64 && j < 64 && task[n].Used? && task[n].t.pid == pid
    requires adopted == Reparent(task, pid, 64) && adopted[n].Used?
    requires gone == adopted[n := Used(adopted[n].t.(zombie := true))]
    ensures task[j].Null? ==> gone[j].Null?
    ensures task[j].Used? ==> gone[j] == Used(HandedOver(task, j, n, pid))
  {
    Adoption(task, pid, 64);
    assert SameTask(adopted[j], task[j]);
  }

  lemma SamePids(task: seq<Slot>, gone: seq<Slot>)
    requires |gone| == |task| && forall j | 0 <= j < |task| :: SameProcess(task, gone, j)
    ensures PidsOf(gone) == PidsOf(task)
  {
    forall j | 0 <= j < |task|
      ensures PidsOf(gone)[j] == PidsOf(task)[j]
    {
      assert SameProcess(task, gone, j);
    }
  }

  predicate SameProcess(task: seq<Slot>, gone: seq<Slot>, j: nat)
    requires j < |task| == |gone|
  {
    task[j].Used? == gone[j].Used? && (task[j].Used? ==> gone[j].t.pid == task[j].t.pid)
  }

  lemma AllOrphaned(task: seq<Slot>, n: nat, pid: nat, adopted: seq<Slot>, gone: seq<Slot>)
    requires |task| == 64 && n < 64 && task[n].Used? && pid == task[n].t.pid
    requires adopted == Reparent(task, pid, 64) && adopted[n].Used?
    requires gone == adopted[n := Used(adopted[n].t.(zombie := true))]
    ensures Orphaned(task, gone, n)
  {
    forall j | 0 <= j < 64
      ensures SameProcess(task, gone, j)
      ensures task[j].Null? ==> gone[j].Null?
      ensures task[j].Used? ==> gone[j] == Used(HandedOver(task, j, n, pid))
    {
      OneOrphaned(task, adopted, gone, n, j, pid);
    }
    SamePids(task, gone);
  }

  lemma ToldSlot(task: seq<Slot>, gone: seq<Slot>, n: nat, i: nat, j: nat)
    requires |task| == 64 && n < 64 && task[n].Used? && PidsDiffer(task) && Orphaned(task, gone, n)
    requires i < 64 && task[i].Used? && task[i].t.pid == Reported(task[n].t) && j < 64 && task[j].Used?
    ensures gone[i := Signal(gone[i], SIGCHLD)][j] == Used(Bereaved(task, j, n))
  {
    assert gone[j] == Used(HandedOver(task, j, n, task[n].t.pid));
    assert task[j].t.pid == task[i].t.pid ==> i == j;
    assert task[j].t.signals + {SIGCHLD} + {SIGCHLD} == task[j].t.signals + {SIGCHLD};
  }

  lemma ToldDeparts(s: Sys, z: Sys, u: Sys, n: nat)
    requires |s.task| == 64 && n < 64 && s.task[n].Used? && PidsDiffer(s.task) && Orphaned(s.task, z.task, n)
    requires TellFather(z, z.task[n].t.father, n) == Done(u)
    ensures Departed(s.task, u.task, n)
  {
    var boss := Reported(s.task[n].t);
    assert z.task[n] == Used(HandedOver(s.task, n, n, s.task[n].t.pid));
    if boss >= 0 && Pids.Held(PidsOf(s.task), boss) {
      HeldPid(s.task, boss);
      var i := Pids.SlotOf(PidsOf(s.task), boss);
      forall j | 0 <= j < 64 && s.task[j].Used?
        ensures u.task[j] == Used(Bereaved(s.task, j, n))
      {
        ToldSlot(s.task, z.task, n, i, j);
      }
    } else {
      UntoldDeparts(s.task, z.task, u.task, n);
    }
  }

  lemma UntoldDeparts(task: seq<Slot>, gone: seq<Slot>, other: seq<Slot>, n: nat)
    requires |task| == 64 && n < 64 && task[n].Used? && Orphaned(task, gone, n) && other == gone[n := Null]
    requires Reported(task[n].t) < 0 || !Pids.Held(PidsOf(task), Reported(task[n].t))
    ensures Departed(task, other, n)
  {
    var boss := Reported(task[n].t);
    if boss >= 0 {
      HeldPid(task, boss);
    }
    forall j | 0 <= j < 64 && task[j].Used? && j != n
      ensures other[j] == Used(HandedOver(task, j, n, task[n].t.pid))
    {
      assert gone[j] == Used(HandedOver(task, j, n, task[n].t.pid));
    }
  }

  /** What an exit does to the task table. */
  lemma ExitDeparts(s: Sys, n: nat, u: Sys)
    requires |s.task| == 64 && Alive(s, n) && PidsDiffer(s.task) && Exit(s, n) == Done(u)
    ensures Departed(s.task, u.task, n)
  {
    var m := FreePageTables(FreePageTables(s.mem, Base(n), s.limit).value, Base(n), s.limit).value;
    var pid := s.task[n].t.pid;
    var adopted := Reparent(s.task, pid, 64);
    assert SameTask(adopted[n], s.task[n]);
    var gone := adopted[n := Used(adopted[n].t.(zombie := true))];
    AllOrphaned(s.task, n, pid, adopted, gone);
    ToldDeparts(s, s.(mem := m, task := gone), u, n);
  }

  lemma ExitKeeps(s: Sys, n: nat) returns (u: Sys)
    requires SysInv(s) && 1 <= n && Alive(s, n)
    ensures Exit(s, n) == Done(u) && SysInv(u) && TornDown(s.mem, u.mem, n) && Survivors(s.task, u.task, n)
    ensures Departed(s.task, u.task, n)
  {
    var r := TearDown(s, n);
    var adopted := Reparent(s.task, s.task[n].t.pid, 64);
    assert forall j | 0 <= j < 64 :: SameTask(adopted[j], s.task[j]);
    var gone := adopted[n := Used(adopted[n].t.(zombie := true))];
    SameSlots(s.task, gone);
    var z := s.(mem := r, task := gone);
    GoneConfined(s, z, n);
    u := TellKeeps(z, gone[n].t.father, n);
    TornTwice(s.mem, r, u.mem, n);
    ExitDeparts(s, n, u);
  }

  /** SIGCHLD for the father, or, when nobody has his pid, the release of the slot. */
  lemma TellKeeps(z: Sys, father: int, n: nat) returns (u: Sys)
    requires SysInv(z) && 1 <= n < 64 && z.task[n].Used? && z.task[n].t.zombie
    ensures TellFather(z, father, n) == Done(u) && SysInv(u) && TornDown(z.mem, u.mem, n) && |u.task| == 64
    ensures forall j | 0 <= j < 64 && (j != n || u.task[n].Used?) :: SameTask(u.task[j], z.task[j])
  {
    if father >= 0 && Pids.Held(PidsOf(z.task), father) {
      var i := Pids.SlotOf(PidsOf(z.task), father);
      u := z.(task := z.task[i := Signal(z.task[i], SIGCHLD)]);
      SameSlots(z.task, u.task);
      SignalledConfined(z, u);
      RangeAbsent(z, n);
      forall a | 16 <= a < 1024
        ensures SameDir(z.mem, z.mem, a)
      {
      }
    } else {
      u := ReleaseKeeps(z, n);
    }
  }

  lemma GoneConfined(s: Sys, z: Sys, n: nat)
    requires Confined(s) && |s.task| == 64 && n < 64 && TornDown(s.mem, z.mem, n) && z.limit == s.limit
    requires |z.task| == 64 && forall j | 0 <= j < 64 && j != n :: SameTask(z.task[j], s.task[j])
    ensures Confined(z)
  {
    forall d | 16 <= d < 1024 && Pde(z.mem, d).present
      ensures Alive(z, d / 16) && d % 16 < DirCount(z.limit)
    {
      assert SameDir(s.mem, z.mem, d);
      assert Alive(s, d / 16) && d / 16 != n;
    }
  }

  lemma SignalledConfined(z: Sys, u: Sys)
    requires Confined(z) && u.mem == z.mem && u.limit == z.limit && |z.task| == 64 == |u.task|
    requires forall j | 0 <= j < 64 :: SameTask(u.task[j], z.task[j])
    ensures Confined(u)
  {
    forall d | 16 <= d < 1024 && Pde(u.mem, d).present
      ensures Alive(u, d / 16) && d % 16 < DirCount(u.limit)
    {
      assert Alive(z, d / 16);
    }
  }

  lemma TornTwice(m: Mem, r: Mem, q: Mem, n: nat)
    requires TornDown(m, r, n) && TornDown(r, q, n)
    ensures TornDown(m, q, n)
  {
    forall a | 16 <= a < 1024 && !(16 * n <= a < 16 * n + 16)
      ensures SameDir(m, q, a)
    {
      assert SameDir(m, r, a) && SameDir(r, q, a);
    }
  }
}
