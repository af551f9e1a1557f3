/** kernel/fork.c and kernel/exit.c as they run: the task table, `last_pid` and memory updated
    in place. Each method is proved against the function of the same name in Kernel. */
module Processes {
  import opened Kernel
  import opened KernelInvariant
  import opened MemoryManager
  import M = Memory
  import P = Pids
  import A = KernelAccess
  import F = KernelSupply

  class TaskTable {
    const memory: PhysicalMemory
    const task: array<Slot>
    var lastPid: nat
    const limit: nat

    predicate Valid()
      reads this, memory
    {
      memory.Valid() && task.Length == 64 && lastPid <= P.MAX_PID && 0 < limit <= 0x400_0000
    }

    function View(): Sys
      requires Valid()
      reads this, task, memory, memory.memMap, memory.ram
    {
      Sys(memory.View(), task[..], lastPid, limit)
    }

    constructor (memory: PhysicalMemory, init: Task, limit: nat)
      requires memory.Valid() && 0 < limit <= 0x400_0000
      ensures Valid() && this.memory == memory && this.limit == limit && lastPid == 0
      ensures fresh(task) && task[..] == [Used(init)] + seq(63, _ => Null)
    {
      this.memory := memory;
      this.limit := limit;
      lastPid := 0;
      task := new Slot[64](i => if i == 0 then Used(init) else Null);
    }

    // ---------- fork ----------

    /** The slot found, or -1 when every slot is taken; `last_pid` advances in either case. The
        search ends within 65 probes, long before the test for a full cycle succeeds. */
    method FindEmptyProcess() returns (slot: int)
      requires Valid()
      modifies this`lastPid
      ensures Valid() && lastPid == P.FindPid(PidsOf(task[..]), old(lastPid))
      ensures P.NextFree(PidsOf(task[..]), old(lastPid), lastPid)
      ensures slot == EmptySlot(task[..], 1)
    {
      ghost var pids := PidsOf(task[..]);
      var tmp: int, last: int := lastPid, lastPid;
      P.FindPidFresh(pids, tmp);
      ghost var bound, k := P.Failures(pids, tmp, 0), 0;
      while true
        invariant k <= bound && last == P.Probe(tmp, k) <= P.MAX_PID
        invariant forall j | 0 <= j < k :: P.Held(pids, P.Probe(tmp, j))
        decreases bound - k
      {
        var i := 0;
        while i < 64 && !(task[i].Used? && task[i].t.pid == last)
          invariant 0 <= i <= 64
          invariant forall j | 0 <= j < i :: pids[j] != last
        {
          i := i + 1;
        }
        if i == 64 {
          break;
        }
        assert pids[i] == last;
        P.ProbeNext(tmp, k);
        P.ProbesDiffer(tmp, 0, k + 1);
        last := if last == P.MAX_PID then -0x8000_0000 else last + 1;
        if last == tmp {
          break;
        }
        if last < 0 {
          last := 1;
        }
        k := k + 1;
      }
      P.FailuresIs(pids, tmp, 0, k);
      lastPid := last;
      slot := FindSlot();
    }

    /** The second loop of find_empty_process. */
    method FindSlot() returns (slot: int)
      requires Valid()
      ensures slot == EmptySlot(task[..], 1)
    {
      slot := 1;
      while slot < 64
        invariant 1 <= slot <= 64
        invariant EmptySlot(task[..], slot) == EmptySlot(task[..], 1)
      {
        if task[slot].Null? {
          return;
        }
        slot := slot + 1;
      }
      slot := -1;
    }

    /** False on a panic; otherwise 0, or -1 after taking a failed copy back. */
    method CopyMem(parent: nat, nr: nat) returns (ok: bool, code: int)
      requires Valid() && parent < 64 && nr < 64 && InRam(memory.View())
      modifies memory.memMap, memory.ram
      ensures Valid() && (ok <==> Kernel.CopyMem(old(memory.View()), parent, nr, limit).Done?)
      ensures ok ==> Kernel.CopyMem(old(memory.View()), parent, nr, limit) == M.Done((memory.View(), code == 0))
                     && InRam(memory.View())
    {
      ok, code := memory.CopyPageTables(Base(parent), Base(nr), limit);
      if ok && code != 0 {
        ok := memory.FreePageTables(Base(nr), limit);
      }
    }

    /** The pid of the child, or -1. */
    method CopyProcess(parent: nat, nr: nat) returns (ok: bool, pid: int)
      requires Valid() && parent < 64 && nr < 64 && parent != nr && task[parent].Used? && InRam(memory.View())
      modifies task, memory.memMap, memory.ram
      ensures Valid() && (ok <==> Kernel.CopyProcess(old(View()), parent, nr).Done?)
      ensures ok ==> var (s, o) := Kernel.CopyProcess(old(View()), parent, nr).value;
                     View() == s && InRam(memory.View()) && pid == if o.Child? then lastPid else -1
    {
      ghost var s := View();
      var p := memory.GetFreePage();
      CowTook(s.mem, memory.View());
      if p == 0 {
        return true, -1;
      }
      task[nr] := Used(Task(p / 4096, lastPid, task[parent].t.pid, false, {}));
      var code;
      ok, code := CopyMem(parent, nr);
      if !ok {
        return false, -1;
      }
      if code != 0 {
        task[nr] := Null;
        ghost var undone := memory.View();
        ok := memory.FreePage(p);
        pid := -1;
        if ok {
          SameRamInRam(undone, memory.View());
        }
        return;
      }
      pid := lastPid;
    }

    /** fork as a system call of a running kernel: it never panics. */
    method SysFork(parent: nat) returns (ok: bool, pid: int)
      requires Valid() && SysInv(View()) && Alive(View(), parent)
      modifies this`lastPid, task, memory.memMap, memory.ram
      ensures Valid() && (ok <==> Kernel.Fork(old(View()), parent).Done?)
      ensures ok ==> var (s, o) := Kernel.Fork(old(View()), parent).value;
                     View() == s && pid == if o.Child? then lastPid else -1
      ensures (parent == 0 ==> M.DirCount(limit) == 1) ==> ok && SysInv(View())
    {
      ForkSafe(View(), parent);
      InvInRam(memory.View(), Pages(task[..]));
      var nr := FindEmptyProcess();
      if nr < 0 {
        return true, -1;
      }
      ok, pid := CopyProcess(parent, nr);
    }

    // ---------- exit ----------

    /** release never panics on a zombie of a running kernel. */
    method Release(n: nat) returns (ok: bool)
      requires Valid() && n < 64 && task[n].Used? && InRam(memory.View())
      modifies task, memory.memMap
      ensures Valid() && (ok <==> Kernel.Release(old(View()), n).Done?)
      ensures ok ==> View() == Kernel.Release(old(View()), n).value && InRam(memory.View())
      ensures old(SysInv(View()) && 1 <= n && task[n].t.zombie) ==> ok && SysInv(View())
    {
      ReleaseSafe(View(), n);
      ghost var m := memory.View();
      var p := task[n].t.page;
      task[n] := Null;
      ok := memory.FreePage(p * 4096);
      if ok {
        SameRamInRam(m, memory.View());
      }
    }

    method SendSig(sig: int, n: nat, priv: bool, sameUser: bool) returns (err: int)
      requires Valid() && n < 64
      modifies task
      ensures (task[n], err) == Kernel.SendSig(old(task[n]), sig, priv, sameUser)
      ensures forall j | 0 <= j < task.Length && j != n :: task[j] == old(task[j])
      ensures err == 0 <==> old(task[n]).Used? && 1 <= sig <= 32 && (priv || sameUser)
      ensures err == 0 ==> task[n] == Used(old(task[n]).t.(signals := old(task[n]).t.signals + {sig as nat}))
      ensures err != 0 ==> task[n] == old(task[n])
    {
      if task[n].Null? || sig < 1 || sig > 32 {
        return -EINVAL;
      }
      if priv || sameUser {
        task[n] := Used(task[n].t.(signals := task[n].t.signals + {sig}));
      } else {
        return -EPERM;
      }
      err := 0;
    }

    method TellFather(father: int, n: nat) returns (ok: bool)
      requires Valid() && n < 64 && task[n].Used? && InRam(memory.View())
      modifies task, memory.memMap
      ensures Valid() && (ok <==> Kernel.TellFather(old(View()), father, n).Done?)
      ensures ok ==> View() == Kernel.TellFather(old(View()), father, n).value && InRam(memory.View())
    {
      ghost var pids := PidsOf(task[..]);
      var i := 0;
      while i < 64
        invariant 0 <= i <= 64
        invariant forall j | 0 <= j < i && task[j].Used? :: task[j].t.pid != father
      {
        if task[i].Used? && task[i].t.pid == father {
          assert pids[i] == father;
          FirstSlotIs(pids, father, 0, i);
          task[i] := Used(task[i].t.(signals := task[i].t.signals + {SIGCHLD}));
          return true;
        }
        i := i + 1;
      }
      assert father >= 0 ==> !P.Held(pids, father);
      ok := Release(n);
    }

    /** do_exit of a running kernel: it never panics. */
    method DoExit(n: nat) returns (ok: bool)
      requires Valid() && SysInv(View()) && 1 <= n && Alive(View(), n)
      modifies task, memory.memMap, memory.ram
      ensures Valid() && ok && SysInv(View()) && Kernel.Exit(old(View()), n) == M.Done(View())
      ensures Departed(old(task[..]), task[..], n)
    {
      var keeps := ExitKeeps(View(), n);
      InvInRam(memory.View(), Pages(task[..]));
      ghost var s := View();
      ok := memory.FreePageTables(Base(n), limit);
      if !ok {
        return;
      }
      ok := memory.FreePageTables(Base(n), limit);
      if !ok {
        return;
      }
      AdoptAll(task[n].t.pid);
      assert SameTask(task[..][n], s.task[n]);
      task[n] := Used(task[n].t.(zombie := true));
      ok := TellFather(task[n].t.father, n);
    }

    /** The loop of do_exit. */
    method AdoptAll(pid: nat)
      requires Valid()
      modifies task
      ensures task[..] == Reparent(old(task[..]), pid, 64)
    {
      var i := 0;
      while i < 64
        invariant 0 <= i <= 64
        invariant task[..] == Reparent(old(task[..]), pid, i)
      {
        AdoptOne(pid, i);
        i := i + 1;
      }
    }

    method AdoptOne(pid: nat, i: nat)
      requires Valid() && i < 64
      modifies task
      ensures task[..] == Adopt(old(task[..]), pid, i)
    {
      if task[i].Used? && task[i].t.father == pid {
        var zombie := task[i].t.zombie;
        task[i] := Used(task[i].t.(father := 1));
        if zombie {
          var _ := SendSig(SIGCHLD, 1, true, false);
        }
      }
    }

    // ---------- page faults ----------

    /** The processor's walk of the page tables. */
    method LookUp(addr: nat) returns (mapped: bool, writable: bool)
      requires Valid() && InRam(memory.View()) && addr < 0x1_0000_0000
      ensures mapped == I.Maps(memory.View(), M.DirOf(addr), M.TabOf(addr))
      ensures mapped ==> writable == M.Pte(memory.View(), M.DirOf(addr), M.TabOf(addr)).writable
    {
      ghost var m := memory.View();
      var pde := memory.ram[addr / 0x40_0000];
      assert pde == M.Pde(m, M.DirOf(addr));
      if !pde.present {
        return false, false;
      }
      var pte := memory.ram[pde.frame * 1024 + addr / 4096 % 1024];
      assert pte == M.Pte(m, M.DirOf(addr), M.TabOf(addr));
      mapped, writable := pte.present, pte.writable;
    }

    /** The page fault a user access takes, if any; false when the kernel halts in it. */
    method TakeFault(addr: nat, write: bool) returns (ok: bool)
      requires Valid() && InRam(memory.View()) && addr < 0x1_0000_0000
      modifies memory.memMap, memory.ram
      ensures Valid() && (ok <==> Kernel.Access(old(memory.View()), addr, write, false).Done?)
      ensures ok ==> Kernel.Access(old(memory.View()), addr, write, false) == M.Done(memory.View())
    {
      AccessFaults(memory.View(), addr, write);
      var mapped, writable := LookUp(addr);
      if !mapped {
        var code := if write then 6 else 4;
        ok := memory.PageFault(code, addr);
      } else if write && !writable {
        ok := memory.PageFault(7, addr);
      } else {
        ok := true;
      }
    }

    /** For an access of task n inside its segment: the kernel never panics, and it halts for
        lack of memory exactly when too few frames are free. */
    method UserFault(n: nat, off: nat, write: bool) returns (ok: bool)
      requires Valid() && SysInv(View()) && 1 <= n && Alive(View(), n) && off < limit
      modifies memory.memMap, memory.ram
      ensures Valid() && !Kernel.Access(old(memory.View()), Base(n) + off, write, false).Panic?
      ensures ok ==> Kernel.Access(old(memory.View()), Base(n) + off, write, false) == M.Done(memory.View())
      ensures ok <==> |F.FreeFrames(old(memory.View()))| >= F.AccessNeeds(old(memory.View()), M.DirOf(Base(n) + off),
              M.TabOf(Base(n) + off), write)
    {
      A.Where(n, off, limit);
      InvInRam(memory.View(), Pages(task[..]));
      FaultSafe(memory.View(), Pages(task[..]), Base(n) + off, write);
      ok := TakeFault(Base(n) + off, write);
    }

    // ---------- verify_area ----------

    /** `base` is the base of the current data segment. `size` counts down as a signed int. */
    method VerifyArea(base: nat, addr: nat, size: nat) returns (ok: bool)
      requires Valid() && InRam(memory.View()) && base % 4096 == 0
      requires size + addr % 4096 < 0x8000_0000 && base + addr + size + 4096 <= 0x1_0000_0000
      modifies memory.memMap, memory.ram
      ensures Valid() && (ok <==> Kernel.VerifyPages(old(memory.View()), Kernel.FirstPage(base, addr),
              Kernel.PageCount(addr, size), false).Done?)
      ensures ok ==> Kernel.VerifyPages(old(memory.View()), Kernel.FirstPage(base, addr),
              Kernel.PageCount(addr, size), false) == M.Done(memory.View())
    {
      ghost var m, first, n := memory.View(), Kernel.FirstPage(base, addr), Kernel.PageCount(addr, size);
      var start := addr / 4096 * 4096 + base;
      var left := size + addr % 4096;
      ghost var k := 0;
      while left > 0
        invariant 0 <= k <= n && memory.Valid() && InRam(memory.View())
        invariant left == size + addr % 4096 - 4096 * k && start == first + 4096 * k
        invariant Kernel.VerifyPages(m, first, k, false) == M.Done(memory.View())
        decreases left
      {
        assert k < n;
        left := left - 4096;
        VerifyNext(m, first, k, memory.View(), start);
        ok := memory.WriteVerify(start);
        k := k + 1;
        if !ok {
          VerifyFails(m, first, k, n);
          return;
        }
        start := start + 4096;
      }
      assert k == n;
      ok := true;
    }
  }

  lemma ForkSafe(s: Sys, parent: nat)
    requires SysInv(s) && Alive(s, parent)
    ensures (parent == 0 ==> M.DirCount(s.limit) == 1)
            ==> Kernel.Fork(s, parent).Done? && SysInv(Kernel.Fork(s, parent).value.0)
  {
    if parent == 0 ==> M.DirCount(s.limit) == 1 {
      var u, o := ForkKeeps(s, parent);
    }
  }

  lemma AccessFaults(m: M.Mem, addr: nat, write: bool)
    ensures !I.Maps(m, M.DirOf(addr), M.TabOf(addr)) ==>
              Kernel.Access(m, addr, write, false) == M.PageFault(m, if write then 6 else 4, addr, false)
    ensures I.Maps(m, M.DirOf(addr), M.TabOf(addr)) && write && !M.Pte(m, M.DirOf(addr), M.TabOf(addr)).writable ==>
              Kernel.Access(m, addr, write, false) == M.PageFault(m, 7, addr, false)
  {
  }

  lemma FaultSafe(m: M.Mem, owned: set<nat>, addr: nat, write: bool)
    requires I.Inv(m, owned) && 0x400_0000 <= addr < 0x1_0000_0000
    ensures !Kernel.Access(m, addr, write, false).Panic?
    ensures Kernel.Access(m, addr, write, false).Oom?
            <==> |F.FreeFrames(m)| < F.AccessNeeds(m, M.DirOf(addr), M.TabOf(addr), write)
  {
    F.AccessFails(m, owned, addr, write, false);
    if write {
      var r := A.StoreAccess(m, owned, addr, M.DirOf(addr), M.TabOf(addr), false);
    } else {
      A.LoadAccess(m, owned, addr, false);
    }
  }

  lemma ReleaseSafe(s: Sys, n: nat)
    requires |s.task| == 64 && n < 64 && s.task[n].Used?
    ensures SysInv(s) && 1 <= n && s.task[n].t.zombie
            ==> Kernel.Release(s, n).Done? && SysInv(Kernel.Release(s, n).value)
  {
    if SysInv(s) && 1 <= n && s.task[n].t.zombie {
      var u := ReleaseKeeps(s, n);
    }
  }

  lemma VerifyNext(m: M.Mem, start: nat, k: nat, p: M.Mem, addr: nat)
    requires Kernel.VerifyPages(m, start, k, false) == M.Done(p) && addr == start + 4096 * k
    ensures Kernel.VerifyPages(m, start, k + 1, false) == M.WriteVerify(p, addr, false)
  {
  }

  lemma CowTook(m: M.Mem, n: M.Mem)
    requires InRam(m) && n == M.GetFreePage(m).0
    ensures InRam(n)
  {
    I.GetFreeEffect(m);
    if M.GetFreePage(m).1 != 0 {
      TookInRam(m, n, M.GetFreePage(m).1);
    }
  }

  lemma FirstSlotIs(pids: seq<int>, pid: nat, k: nat, i: nat)
    requires k <= i < |pids| && pids[i] == pid && forall j | k <= j < i :: pids[j] != pid
    ensures P.FirstSlot(pids, pid, k) == i
    decreases i - k
  {
    if k < i {
      FirstSlotIs(pids, pid, k + 1, i);
    }
  }

  lemma VerifyFails(m: M.Mem, start: nat, k: nat, n: nat)
    requires k <= n && !Kernel.VerifyPages(m, start, k, false).Done?
    ensures !Kernel.VerifyPages(m, start, n, false).Done?
  {
    if k < n {
      VerifyFails(m, start, k, n - 1);
    }
  }
}
