/** The first steps after boot: task 0 forks, and its child writes to the image it shares. */
module KernelBoot {
  import opened Paging
  import opened Memory
  import opened CowInvariant
  import opened CowSteps
  import opened CowFaults
  import opened CowLoops
  import opened Kernel
  import opened KernelInvariant
  import opened KernelProcesses
  import opened KernelAccess
  import opened KernelRuns
  import opened KernelSupply
  import opened CowRefinement
  import opened VerifyArea

  ghost function Range(lo: nat, hi: nat): (r: set<nat>)
    requires lo <= hi
    ensures (forall f :: f in r <==> lo <= f < hi) && |r| == hi - lo
    decreases hi
  {
    if lo == hi then {} else Range(lo, hi - 1) + {hi - 1}
  }

  /** After boot exactly the frames between LOW_MEM and the end of memory are free. */
  lemma BootFrames(s: Sys, end: nat)
    requires Booted(s, end)
    ensures 256 <= High(s.mem) == end / 4096 && FreeFrames(s.mem) == Range(256, High(s.mem))
  {
    BootGood(s, end);
    var m := s.mem;
    forall f: nat | 256 <= f < 4096
      ensures Count(m, f) == 0 <==> f < High(m)
    {
      assert m.count[f - 256] == MemInit(m, LOW_MEM, end).count[f - 256];
    }
    assert FreeFrames(m) == Range(256, High(m));
  }

  lemma BootCount(s: Sys, end: nat)
    requires Booted(s, end)
    ensures |FreeFrames(s.mem)| == end / 4096 - 256
  {
    BootFrames(s, end);
  }

  lemma ForkLimit(s: Sys, n: nat, u: Sys, o: Outcome)
    requires |s.task| == 64 && Alive(s, n) && Fork(s, n) == Done((u, o))
    ensures u.limit == s.limit
  {
  }

  /** With two frames to spare the first fork succeeds, in slot 1, and its child sees the
      image. */
  lemma FirstFork(s: Sys, end: nat, copies: bool) returns (u: Sys)
    requires Booted(s, end) && end >= 0x10_2000
    ensures StepsTo(s, EvFork(0), copies, u, Child(1)) && SysInv(u) && Alive(u, 1) && u.limit == s.limit
    ensures ImageAt(u.mem, 16) && |FreeFrames(u.mem)| == end / 4096 - 258
  {
    BootGood(s, end);
    BootCount(s, end);
    ForkFails(s, 0);
    assert Pde(s.mem, 0) == Grant(1);
    assert Tables(s.mem, 0, 0) == 0 && Tables(s.mem, 0, 1) == 1;
    assert s.task[1].Null?;
    var o;
    u, o := ForkKeeps(s, 0);
    ForkedChild(s, 0, u, o.slot);
    ForkLimit(s, 0, u, o);
  }

  /** The literal un_wp_page loses image words in a run of two steps from boot: task 0 forks, and
      the child stores any word at the start of its page 1. */
  lemma LiteralLosesAfterBoot(s: Sys, end: nat, w: Word) returns (u: Sys, v: Sys)
    requires Booted(s, end) && end >= 0x10_3000
    ensures StepsTo(s, EvFork(0), false, u, Child(1)) && StepsTo(u, EvStore(1, 4096, w), false, v, Ok)
    ensures Contents(u.mem, 16, 1)[1] == Grant(1) && Contents(v.mem, 16, 1)[1] == ZERO
  {
    u := FirstFork(s, end, false);
    v := StoreOnImage(u, w);
    LiteralLosesImage(u, 1, w, v);
  }

  lemma StoreOnImage(u: Sys, w: Word) returns (v: Sys)
    requires SysInv(u) && Alive(u, 1) && u.limit > 4096 && ImageAt(u.mem, 16) && |FreeFrames(u.mem)| >= 1
    ensures StepsTo(u, EvStore(1, 4096, w), false, v, Ok)
  {
    var e := EvStore(1, 4096, w);
    StepFails(u, e, false);
    StoreNeeds(u, w);
    var r := StepKeeps(u, e, false);
    v := r.value.0;
    StoreOk(u, w, r);
  }

  /** So does verify_area on the same page: with one frame left after the fork it returns, and the
      page has lost its words before the kernel has written any. */
  lemma VerifyLosesAfterBoot(s: Sys, end: nat) returns (u: Sys, v: Sys)
    requires Booted(s, end) && end >= 0x10_3000
    ensures StepsTo(s, EvFork(0), false, u, Child(1)) && StepsTo(u, EvVerify(1, 4096, 4), false, v, Ok)
    ensures Contents(u.mem, 16, 1)[1] == Grant(1) && Contents(v.mem, 16, 1)[1] == ZERO
  {
    u := FirstFork(s, end, false);
    v := VerifyOnImage(u);
    ImagePageOne(u, 1);
    StepEffect(u, EvVerify(1, 4096, 4), false, v, Ok);
    VerifiedPageOne(u.mem, v.mem);
  }

  lemma VerifiedPageOne(m: Mem, n: Mem)
    requires VerifiedAt(m, n, 1, 4096, 4, false) && Replaced(m, 16, 1)
    ensures Contents(n, 16, 1) == ZeroWords()
  {
    assert (Base(1) + 4096) / 4096 == 16385 && PageCount(4096, 4) == 1;
    assert VerifyArea.Holds(m, n, 16385, false);
  }

  lemma VerifyOnImage(u: Sys) returns (v: Sys)
    requires SysInv(u) && Alive(u, 1) && |FreeFrames(u.mem)| >= 1
    ensures StepsTo(u, EvVerify(1, 4096, 4), false, v, Ok)
  {
    var e := EvVerify(1, 4096, 4);
    StepFails(u, e, false);
    VerifyNeeds(u);
    var r := StepKeeps(u, e, false);
    v := r.value.0;
    VerifyOk(u, r);
  }

  lemma VerifyNeeds(u: Sys)
    requires |u.task| == 64 && Enabled(u, EvVerify(1, 4096, 4))
    ensures Needs(u, EvVerify(1, 4096, 4)) <= 1
  {
    assert (Base(1) + 4096) / 4096 == 16385 && PageCount(4096, 4) == 1;
    assert ToReplace(u.mem, 16385, 0) == 0;
  }

  lemma VerifyOk(u: Sys, r: Run<(Sys, Outcome)>)
    requires |u.task| == 64 && Enabled(u, EvVerify(1, 4096, 4)) && StepIs(u, EvVerify(1, 4096, 4), false, r) && r.Done?
    ensures r.value.1 == Ok
  {
  }

  lemma StoreNeeds(u: Sys, w: Word)
    requires |u.task| == 64 && Enabled(u, EvStore(1, 4096, w)) && ImageAt(u.mem, 16)
    ensures Needs(u, EvStore(1, 4096, w)) <= 1
  {
    var addr := Base(1) + 4096;
    assert DirOf(addr) == 16 && TabOf(addr) == 1;
    assert Maps(u.mem, 16, 1);
  }

  lemma StoreOk(u: Sys, w: Word, r: Run<(Sys, Outcome)>)
    requires |u.task| == 64 && Enabled(u, EvStore(1, 4096, w)) && StepIs(u, EvStore(1, 4096, w), false, r) && r.Done?
    ensures r.value.1 == Ok
  {
  }
}
