/** What fork and exit do to the process table. */
module KernelProcesses {
  import opened Memory
  import opened Kernel
  import opened KernelInvariant
  import Pids

  /** The child of a successful fork: the first free slot, a pid nobody holds, the caller as
      its father, a task page of its own and nothing pending. */
  lemma ForkedChild(s: Sys, parent: nat, u: Sys, slot: nat)
    requires SysInv(s) && Alive(s, parent) && (parent == 0 ==> DirCount(s.limit) == 1)
    requires Fork(s, parent) == Done((u, Child(slot)))
    ensures 1 <= slot < 64 && s.task[slot].Null? && forall j | 1 <= j < slot :: s.task[j].Used?
    ensures |u.task| == 64 && u.task[slot].Used?
    ensures var c := u.task[slot].t;
            && c.pid == u.lastPid && c.father == s.task[parent].t.pid && !c.zombie && c.signals == {}
            && (forall j | 0 <= j < 64 && s.task[j].Used? :: s.task[j].t.pid != c.pid)
            && c.page !in Pages(s.task)
  {
    var v, o := ForkKeeps(s, parent);
    ForkUnfolds(s, parent, u, slot);
    Pids.FindPidFresh(PidsOf(s.task), s.lastPid);
    FirstEmpty(s.task, 1);
    forall j | 0 <= j < 64 && s.task[j].Used?
      ensures s.task[j].t.pid != u.task[slot].t.pid
    {
      assert PidsOf(s.task)[j] == s.task[j].t.pid;
    }
  }

  lemma ForkUnfolds(s: Sys, parent: nat, u: Sys, slot: nat)
    requires |s.task| == 64 && Alive(s, parent) && Fork(s, parent) == Done((u, Child(slot)))
    ensures slot == EmptySlot(s.task, 1) && u.lastPid == Pids.FindPid(PidsOf(s.task), s.lastPid)
    ensures u.task == s.task[slot := Used(Task(u.task[slot].t.page, u.lastPid, s.task[parent].t.pid, false, {}))]
  {
  }

  lemma {:induction false} FirstEmpty(task: seq<Slot>, n: nat)
    requires n <= |task|
    ensures EmptySlot(task, n) >= 0 ==> forall j | n <= j < EmptySlot(task, n) :: task[j].Used?
    decreases |task| - n
  {
    if n < |task| && !task[n].Null? {
      FirstEmpty(task, n + 1);
    }
  }

  /** Whom do_exit tells: the first task with the father's pid is signalled and the caller
      stays a zombie; when there is none, the caller's slot is empty at once. A task that is
      its own father counts as a child of process 1. */
  lemma ExitTells(s: Sys, n: nat, u: Sys)
    requires SysInv(s) && 1 <= n && Alive(s, n) && Exit(s, n) == Done(u)
    ensures |u.task| == 64
    ensures var father := if s.task[n].t.father == s.task[n].t.pid then 1 else s.task[n].t.father;
            if father >= 0 && Pids.Held(PidsOf(s.task), father) then
              var i := Pids.SlotOf(PidsOf(s.task), father);
              && u.task[n].Used? && u.task[n].t.zombie
              && u.task[i].Used? && SIGCHLD in u.task[i].t.signals
            else u.task[n].Null?
  {
    var r := TearDown(s, n);
    var adopted := Reparent(s.task, s.task[n].t.pid, 64);
    assert SameTask(adopted[n], s.task[n]);
    var gone := adopted[n := Used(adopted[n].t.(zombie := true))];
    Adoption(s.task, s.task[n].t.pid, 64);
    assert PidsOf(gone) == PidsOf(s.task) by {
      forall j | 0 <= j < 64
        ensures PidsOf(gone)[j] == PidsOf(s.task)[j]
      {
        assert SameTask(adopted[j], s.task[j]);
      }
    }
  }

  /** send_sig makes exactly the given signal pending, for a task, a valid signal and a sender that
      may; otherwise nothing changes, and the error tells a bad argument from a missing right. */
  lemma SendSigIs(slot: Slot, sig: int, priv: bool, sameUser: bool)
    ensures var (r, err) := SendSig(slot, sig, priv, sameUser);
            && (err == 0 <==> slot.Used? && 1 <= sig <= 32 && (priv || sameUser))
            && (err == 0 ==> r == Used(slot.t.(signals := slot.t.signals + {sig as nat})))
            && (err != 0 ==> r == slot && err == if slot.Used? && 1 <= sig <= 32 then -EPERM else -EINVAL)
  {
  }

  /** Every fork, failed or not, moves `last_pid` on to the first pid from its old value on that
      nobody holds, going round to 1 after the largest. */
  lemma ForkAdvances(s: Sys, parent: nat, u: Sys, o: Outcome)
    requires SysInv(s) && Alive(s, parent) && Fork(s, parent) == Done((u, o))
    ensures Pids.NextFree(PidsOf(s.task), s.lastPid, u.lastPid) && u.limit == s.limit
  {
    Pids.FindPidFresh(PidsOf(s.task), s.lastPid);
  }
}
