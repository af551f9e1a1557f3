/** Processes over the copy-on-write memory: what fork, exit, page faults and user accesses
    do to the task table and to memory (kernel/fork.c, kernel/exit.c, mm/page.s). Each step
    runs to completion, because the timer never reschedules in kernel mode. */
module Kernel {
  import opened Paging
  import opened Memory
  import opened CowInvariant
  import Pids

  const SIGCHLD := 17
  const EPERM := 1
  const EINVAL := 22

  /** The part of task_struct that fork and exit use. `page` is the frame of the task_struct
      itself, 0 for the static task 0. */
  datatype Task = Task(page: nat, pid: nat, father: int, zombie: bool, signals: set<nat>)

  datatype Slot = Null | Used(t: Task)

  /** `limit` is the segment limit in the local descriptor table, which every task inherits. */
  datatype Sys = Sys(mem: Mem, task: seq<Slot>, lastPid: nat, limit: nat)

  /** What a system call returns to its caller, or a load reads. */
  datatype Outcome = Ok | Child(slot: nat) | Failed | Read(w: Word)

  function Base(n: nat): nat {
    n * 0x400_0000
  }

  function PidsOf(task: seq<Slot>): (r: seq<int>)
    ensures |r| == |task|
    ensures forall i | 0 <= i < |task| :: r[i] == if task[i].Used? then task[i].t.pid else -1
  {
    seq(|task|, i requires 0 <= i < |task| => if task[i].Used? then task[i].t.pid else -1)
  }

  predicate Alive(s: Sys, n: nat) {
    n < |s.task| && s.task[n].Used? && !s.task[n].t.zombie
  }

  // ---------- fork ----------

  function EmptySlot(task: seq<Slot>, n: nat): (r: int)
    requires n <= |task|
    ensures r == -1 || (n <= r < |task| && task[r].Null?)
    ensures r == -1 ==> forall i | n <= i < |task| :: task[i].Used?
    decreases |task| - n
  {
    if n == |task| then -1 else if task[n].Null? then n else EmptySlot(task, n + 1)
  }

  /** copy_mem: share the address range, or take a half-made copy back. */
  function CopyMem(m: Mem, parent: nat, child: nat, limit: nat): Run<(Mem, bool)> {
    match CopyPageTables(m, Base(parent), Base(child), limit)
    case Done(Copied(n)) => Done((n, true))
    case Done(NoMemory(n)) =>
      var r :- FreePageTables(n, Base(child), limit);
      Done((r, false))
    case other => Panic
  }

  function CopyProcess(s: Sys, parent: nat, nr: nat): Run<(Sys, Outcome)>
    requires parent < |s.task| && s.task[parent].Used? && nr < |s.task|
  {
    var (m, g) := GetFreePage(s.mem);
    if g == 0 then Done((s.(mem := m), Failed))
    else
      var (n, ok) :- CopyMem(m, parent, nr, s.limit);
      if ok then
        var child := Task(g, s.lastPid, s.task[parent].t.pid, false, {});
        Done((s.(mem := n, task := s.task[nr := Used(child)]), Child(nr)))
      else
        var r :- FreePage(n, g * 4096);
        Done((s.(mem := r, task := s.task[nr := Null]), Failed))
  }

  function Fork(s: Sys, parent: nat): Run<(Sys, Outcome)>
    requires |s.task| == 64 && Alive(s, parent)
  {
    var s1 := s.(lastPid := Pids.FindPid(PidsOf(s.task), s.lastPid));
    var nr := EmptySlot(s.task, 1);
    if nr < 0 then Done((s1, Failed)) else CopyProcess(s1, parent, nr)
  }

  // ---------- exit ----------

  function Signal(slot: Slot, sig: nat): Slot {
    if slot.Used? then Used(slot.t.(signals := slot.t.signals + {sig})) else slot
  }

  /** send_sig: the slot afterwards and the value returned. `sameUser` compares the effective
      user ids. */
  function SendSig(slot: Slot, sig: int, priv: bool, sameUser: bool): (Slot, int) {
    if slot.Null? || sig < 1 || sig > 32 then (slot, -EINVAL)
    else if priv || sameUser then (Signal(slot, sig), 0)
    else (slot, -EPERM)
  }

  /** The same process, apart from its father and its pending signals. */
  predicate SameTask(a: Slot, b: Slot) {
    if b.Used? then a.Used? && a.t.page == b.t.page && a.t.pid == b.t.pid && a.t.zombie == b.t.zombie else a.Null?
  }

  /** One round of the loop in do_exit over slot i. */
  function Adopt(task: seq<Slot>, pid: nat, i: nat): (r: seq<Slot>)
    requires |task| == 64 && i < 64
    ensures |r| == 64
    ensures forall j | 0 <= j < 64 :: SameTask(r[j], task[j])
  {
    if task[i].Used? && task[i].t.father == pid then
      var moved := task[i := Used(task[i].t.(father := 1))];
      if task[i].t.zombie then moved[1 := Signal(moved[1], SIGCHLD)] else moved
    else task
  }

  function Reparent(task: seq<Slot>, pid: nat, n: nat): (r: seq<Slot>)
    requires |task| == 64 && n <= 64
    ensures |r| == 64
    ensures forall j | 0 <= j < 64 :: SameTask(r[j], task[j])
  {
    if n == 0 then task else Adopt(Reparent(task, pid, n - 1), pid, n - 1)
  }

  function Release(s: Sys, n: nat): Run<Sys>
    requires n < |s.task| && s.task[n].Used?
  {
    var m :- FreePage(s.mem, s.task[n].t.page * 4096);
    Done(s.(mem := m, task := s.task[n := Null]))
  }

  /** tell_father: the first slot with that pid gets SIGCHLD; a task without a father is
      released on the spot. */
  function TellFather(s: Sys, father: int, n: nat): Run<Sys>
    requires |s.task| == 64 && n < 64 && s.task[n].Used?
  {
    if father >= 0 && Pids.Held(PidsOf(s.task), father) then
      var i := Pids.SlotOf(PidsOf(s.task), father);
      Done(s.(task := s.task[i := Signal(s.task[i], SIGCHLD)]))
    else Release(s, n)
  }

  function Exit(s: Sys, n: nat): Run<Sys>
    requires |s.task| == 64 && Alive(s, n)
  {
    var m1 :- FreePageTables(s.mem, Base(n), s.limit);
    var m2 :- FreePageTables(m1, Base(n), s.limit);
    var adopted := Reparent(s.task, s.task[n].t.pid, 64);
    assert SameTask(adopted[n], s.task[n]);
    var gone := adopted[n := Used(adopted[n].t.(zombie := true))];
    TellFather(s.(mem := m2, task := gone), gone[n].t.father, n)
  }

  // ---------- user accesses ----------

  /** The entry a user access goes through, after the faults it takes. */
  function Access(m: Mem, addr: nat, write: bool, copies: bool): Run<Mem> {
    if !Maps(m, DirOf(addr), TabOf(addr)) then PageFault(m, if write then 6 else 4, addr, copies)
    else if write && !Pte(m, DirOf(addr), TabOf(addr)).writable then PageFault(m, 7, addr, copies)
    else Done(m)
  }

  function Load(s: Sys, n: nat, off: nat, copies: bool): Run<(Sys, Word)> {
    var addr := Base(n) + off;
    var m :- Access(s.mem, addr, false, copies);
    Done((s.(mem := m), Peek(m, Pte(m, DirOf(addr), TabOf(addr)).frame * 1024 + off / 4 % 1024)))
  }

  function Store(s: Sys, n: nat, off: nat, w: Word, copies: bool): Run<Sys> {
    var addr := Base(n) + off;
    var m :- Access(s.mem, addr, true, copies);
    Done(s.(mem := Poke(m, Pte(m, DirOf(addr), TabOf(addr)).frame * 1024 + off / 4 % 1024, w)))
  }

  // ---------- verify_area ----------

  /** The first n calls of write_verify, on successive pages. */
  function VerifyPages(m: Mem, start: nat, n: nat, copies: bool): Run<Mem> {
    if n == 0 then Done(m)
    else
      var m1 :- VerifyPages(m, start, n - 1, copies);
      WriteVerify(m1, start + 4096 * (n - 1), copies)
  }

  /** The first page, as a linear address, and the number of pages. */
  function FirstPage(base: nat, addr: nat): nat {
    addr / 4096 * 4096 + base
  }

  function PageCount(addr: nat, size: nat): nat {
    (size + addr % 4096 + 4095) / 4096
  }

  function Verify(s: Sys, n: nat, off: nat, size: nat, copies: bool): Run<Sys> {
    var m :- VerifyPages(s.mem, FirstPage(Base(n), off), PageCount(off, size), copies);
    Done(s.(mem := m))
  }

  // ---------- steps and runs ----------

  /** `EvVerify` is verify_area on `size` bytes at `off`, on behalf of task n. */
  datatype Event =
    | EvFork(n: nat)
    | EvExit(n: nat)
    | EvRelease(n: nat)
    | EvLoad(n: nat, off: nat)
    | EvStore(n: nat, off: nat, w: Word)
    | EvVerify(n: nat, off: nat, size: nat)

  /** The event can happen: a live task acts inside its segment. Only task 0 forks from the
      kernel image, and its segment fits one directory entry. verify_area does not look at the
      segment limit; its area is not empty, smaller than the 64MB of a task, and does not wrap. */
  predicate Enabled(s: Sys, e: Event) {
    match e
    case EvFork(n) => Alive(s, n) && (n == 0 ==> DirCount(s.limit) == 1)
    case EvExit(n) => 1 <= n && Alive(s, n)
    case EvRelease(n) => 1 <= n < |s.task| && s.task[n].Used? && s.task[n].t.zombie
    case EvLoad(n, off) => 1 <= n && Alive(s, n) && off < s.limit
    case EvStore(n, off, w) => 1 <= n && Alive(s, n) && off < s.limit
    case EvVerify(n, off, size) =>
      1 <= n && Alive(s, n) && 1 <= size <= 0x3ff_f000 && Base(n) + off + size <= 0x1_0000_0000
  }

  function Step(s: Sys, e: Event, copies: bool): Run<(Sys, Outcome)>
    requires |s.task| == 64 && Enabled(s, e)
  {
    match e
    case EvFork(n) => Fork(s, n)
    case EvExit(n) => var r :- Exit(s, n); Done((r, Ok))
    case EvRelease(n) => var r :- Release(s, n); Done((r, Ok))
    case EvLoad(n, off) => var r :- Load(s, n, off, copies); Done((r.0, Read(r.1)))
    case EvStore(n, off, w) => var r :- Store(s, n, off, w, copies); Done((r, Ok))
    case EvVerify(n, off, size) => var r :- Verify(s, n, off, size, copies); Done((r, Ok))
  }
}
