/** How many free frames each step needs: it fails for lack of memory exactly when there are
    fewer. */
module KernelSupply {
  import opened Paging
  import opened Memory
  import opened CowInvariant
  import opened CowSteps
  import opened CowFaults
  import opened CowLoops
  import opened Kernel
  import opened KernelForks
  import opened KernelInvariant
  import opened KernelAccess
  import opened VerifyArea
  import Pids

  ghost function FreeFrames(m: Mem): set<nat> {
    set f: nat | 256 <= f < 4096 && Count(m, f) == 0
  }

  lemma NoneFree(m: Mem)
    ensures GetFreePage(m).1 == 0 <==> FreeFrames(m) == {}
  {
    GetFreeEffect(m);
    if GetFreePage(m).1 != 0 {
      assert GetFreePage(m).1 in FreeFrames(m);
    }
  }

  lemma OneTaken(m: Mem, n: Mem, g: nat)
    requires Took(m, n, g)
    ensures |FreeFrames(n)| == |FreeFrames(m)| - 1
  {
    assert FreeFrames(n) == FreeFrames(m) - {g};
    assert g in FreeFrames(m);
  }

  lemma SameCounts(m: Mem, n: Mem)
    requires forall f | 256 <= f < 4096 :: (Count(n, f) == 0) == (Count(m, f) == 0)
    ensures FreeFrames(n) == FreeFrames(m)
  {
  }

  // ---------- faults ----------

  /** The frames a not-present fault takes: the page, and a table where there is none. */
  function MapNeeds(m: Mem, d: nat): nat {
    if Pde(m, d).present then 1 else 2
  }

  lemma NoPageFails(m: Mem, owned: set<nat>, addr: nat)
    requires Inv(m, owned) && 0x400_0000 <= addr < 0x1_0000_0000 && !Maps(m, DirOf(addr), TabOf(addr))
    ensures DoNoPage(m, addr).Oom? <==> |FreeFrames(m)| < MapNeeds(m, DirOf(addr))
  {
    var d := DirOf(addr);
    var page := addr / 4096 * 4096;
    assert DirOf(page) == d;
    var (m1, f) := GetFreePage(m);
    NoPageFault(m, owned, addr);
    NoneFree(m);
    if f != 0 {
      GetFreeEffect(m);
      OneTaken(m, m1, f);
      NoneFree(m1);
      assert Pde(m1, d) == Pde(m, d) by {
        assert Peek(m1, d) == Peek(m, d);
      }
      PutSucceeds(m1, f, page);
    }
  }

  lemma PutSucceeds(m: Mem, f: Frame, addr: nat)
    ensures PutPage(m, f, addr).1 <==> Pde(m, DirOf(addr)).present || GetFreePage(m).1 != 0
  {
  }

  lemma ProtectFails(m: Mem, owned: set<nat>, d: nat, i: nat, copies: bool)
    requires Inv(m, owned) && 16 <= d < 1024 && i < 1024 && Maps(m, d, i)
    ensures UnWpPage(m, PteIndex(m, d, i), copies).Oom? <==> !Alone(m, d, i) && FreeFrames(m) == {}
  {
    NoneFree(m);
  }

  /** The frames a user access takes. */
  function AccessNeeds(m: Mem, d: nat, i: nat, write: bool): nat {
    if !Maps(m, d, i) then MapNeeds(m, d)
    else if write && Replaced(m, d, i) then 1
    else 0
  }

  lemma AccessFails(m: Mem, owned: set<nat>, addr: nat, write: bool, copies: bool)
    requires Inv(m, owned) && 0x400_0000 <= addr < 0x1_0000_0000
    ensures Access(m, addr, write, copies).Oom? <==> |FreeFrames(m)| < AccessNeeds(m, DirOf(addr), TabOf(addr), write)
  {
    var d, i := DirOf(addr), TabOf(addr);
    if !Maps(m, d, i) {
      NoPageFails(m, owned, addr);
    } else if write && !Pte(m, d, i).writable {
      ProtectFails(m, owned, d, i, copies);
      ProtectedAccess(m, addr, d, i, copies);
    }
  }

  lemma ProtectedAccess(m: Mem, addr: nat, d: nat, i: nat, copies: bool)
    requires d == DirOf(addr) && i == TabOf(addr) && Maps(m, d, i) && !Pte(m, d, i).writable
    ensures Access(m, addr, true, copies) == UnWpPage(m, PteIndex(m, d, i), copies)
  {
  }

  // ---------- copy_page_tables ----------

  /** The tables among k directory entries from f. */
  function Tables(m: Mem, f: nat, k: nat): nat {
    if k == 0 then 0 else Tables(m, f, k - 1) + Bit(Pde(m, f + k - 1).present)
  }

  lemma {:induction false} TablesAgree(m: Mem, n: Mem, f: nat, k: nat)
    requires forall d | f <= d < f + k :: Pde(n, d).present == Pde(m, d).present
    ensures Tables(n, f, k) == Tables(m, f, k)
  {
    if k > 0 {
      TablesAgree(m, n, f, k - 1);
    }
  }

  /** Sharing an entry takes no frame. */
  lemma CopyEntryFree(m: Mem, p: Mem, owned: set<nat>, d: nat, e: nat, k: nat, x: nat, y: nat)
    requires 16 <= d < 1024 && 16 <= e < 1024 && d != e && d % 16 == e % 16 && k < 1024
    requires Inv(p, owned) && CopiedEntries(m, p, d, e, k) && Pde(m, d).present && Pde(m, e).present
    requires x == PteIndex(m, d, k) && y == PteIndex(m, e, k)
    ensures FreeFrames(CopyEntry(p, x, y)) == FreeFrames(p)
  {
    assert ProtectedDir(m, p, d);
    assert x == PteIndex(p, d, k) && y == PteIndex(p, e, k);
    var n := CopyEntry(p, x, y);
    if Maps(p, d, k) {
      ShareStep(p, owned, d, e, k);
      SharedFree(p, n, owned, d, e, k);
    }
  }

  lemma SharedFree(p: Mem, n: Mem, owned: set<nat>, d: nat, e: nat, k: nat)
    requires Inv(p, owned) && 16 <= d < 1024 && k < 1024 && Maps(p, d, k) && Shared(p, n, d, e, k)
    ensures FreeFrames(n) == FreeFrames(p)
  {
    forall f | 256 <= f < 4096
      ensures (Count(n, f) == 0) == (Count(p, f) == 0)
    {
      if Count(p, f) == 0 {
        FreeUnnamed(p, owned, f);
        assert !Names(p, d, k, f);
      }
    }
    SameCounts(p, n);
  }

  lemma OneResult(m: Mem, x: nat, y: nat, k: nat, p: Mem, q: Mem)
    requires Iterated(m, x, y, k, p) && Iterated(m, x, y, k, q)
    ensures p == q
  {
  }

  lemma {:induction false} EntriesFree(m: Mem, owned: set<nat>, d: nat, e: nat, x: nat, y: nat, k: nat) returns (n: Mem)
    requires Inv(m, owned) && 16 <= d < 1024 && 16 <= e < 1024 && d != e && d % 16 == e % 16 && k <= 1024
    requires Pde(m, d).present && Pde(m, e).present && x == PteIndex(m, d, 0) && y == PteIndex(m, e, 0)
    requires forall i | 0 <= i < 1024 :: !Maps(m, e, i)
    ensures Iterated(m, x, y, k, n) && FreeFrames(n) == FreeFrames(m)
  {
    if k == 0 {
      n := m;
    } else {
      var j, u, v := k - 1, x + k - 1, y + k - 1;
      var q := EntriesFree(m, owned, d, e, x, y, j);
      var p := CopyEntriesKeep(m, owned, d, e, x, y, j);
      OneResult(m, x, y, j, p, q);
      IterateOnce(m, x, y, k, p, u, v);
      CopyEntryFree(m, p, owned, d, e, j, u, v);
      n := CopyEntry(p, u, v);
    }
  }

  lemma {:induction false} ImageFree(m: Mem, owned: set<nat>, e: nat, y: nat, k: nat) returns (n: Mem)
    requires Inv(m, owned) && 16 <= e < 1024 && k <= 160 && Pde(m, e).present && y == PteIndex(m, e, 0)
    requires forall i | 0 <= i < 1024 :: !Maps(m, e, i)
    ensures Iterated(m, 1024, y, k, n) && FreeFrames(n) == FreeFrames(m)
  {
    if k == 0 {
      n := m;
    } else {
      var q := ImageFree(m, owned, e, y, k - 1);
      var p := CopyImageKeep(m, owned, e, y, k - 1);
      OneResult(m, 1024, y, k - 1, p, q);
      var u, v := 1024 + k - 1, y + k - 1;
      IterateOnce(m, 1024, y, k, p, u, v);
      ShareImageStep(p, owned, e, k - 1);
      assert v == PteIndex(p, e, k - 1);
      n := CopyEntry(p, u, v);
      SameCounts(p, n);
    }
  }

  /** The state after the table for directory entry t is allocated. */
  lemma TableTaken(m: Mem, owned: set<nat>, t: nat) returns (m2: Mem, g: nat)
    requires Inv(m, owned) && 16 <= t < 1024 && !Pde(m, t).present && FreeFrames(m) != {}
    ensures g == GetFreePage(m).1 && 256 <= g < 4096 && m2 == Poke(GetFreePage(m).0, t, Grant(g))
    ensures Inv(m2, owned) && FreshTable(m, m2, t, g) && |FreeFrames(m2)| == |FreeFrames(m)| - 1
    ensures forall i | 0 <= i < 1024 :: !Maps(m2, t, i)
  {
    NoneFree(m);
    GetFreeEffect(m);
    AllocateTable(m, owned, t);
    g := GetFreePage(m).1;
    m2 := Poke(GetFreePage(m).0, t, Grant(g));
    OneTaken(m, GetFreePage(m).0, g);
    SameCounts(GetFreePage(m).0, m2);
    forall i | 0 <= i < 1024
      ensures !Maps(m2, t, i)
    {
      assert !Maps(m, t, i);
    }
  }

  /** One directory entry: it fails exactly when it needs a table and no frame is free. */
  lemma DirFails(m: Mem, owned: set<nat>, f: nat, t: nat) returns (r: Copy)
    requires Inv(m, owned) && 16 <= f < 1024 && 16 <= t < 1024 && f != t && f % 16 == t % 16 && !Pde(m, t).present
    ensures CopyDirIs(m, f, t, 1024, r)
    ensures r.NoMemory? <==> |FreeFrames(m)| < Bit(Pde(m, f).present)
    ensures r.Copied? ==> |FreeFrames(r.mem)| == |FreeFrames(m)| - Bit(Pde(m, f).present)
  {
    NoneFree(m);
    if !Pde(m, f).present {
      r := Copied(m);
    } else if FreeFrames(m) == {} {
      GetFreeEffect(m);
      r := NoMemory(m);
    } else {
      var m2, g := TableTaken(m, owned, t);
      var x, y := PteIndex(m, f, 0), PteIndex(m2, t, 0);
      assert Pde(m2, f) == Pde(m, f);
      var n := EntriesFree(m2, owned, f, t, x, y, 1024);
      CopyDirTook(m, f, t, 1024, x, g, y, n);
      r := Copied(n);
    }
  }

  lemma ImageDirFails(m: Mem, owned: set<nat>, t: nat) returns (r: Copy)
    requires Inv(m, owned) && 16 <= t < 1024 && !Pde(m, t).present
    ensures CopyDirIs(m, 0, t, 160, r) && (r.NoMemory? <==> FreeFrames(m) == {})
    ensures r.Copied? ==> |FreeFrames(r.mem)| == |FreeFrames(m)| - 1
  {
    NoneFree(m);
    assert Pde(m, 0) == Grant(1);
    if FreeFrames(m) == {} {
      GetFreeEffect(m);
      r := NoMemory(m);
    } else {
      var m2, g := TableTaken(m, owned, t);
      var y := PteIndex(m2, t, 0);
      var n := ImageFree(m2, owned, t, y, 160);
      CopyDirTook(m, 0, t, 160, 1024, g, y, n);
      r := Copied(n);
    }
  }

  lemma OneMoreTable(m: Mem, f: nat, k: nat, j: nat, u: nat)
    requires k == j + 1 && u == f + k - 1
    ensures Tables(m, f, k) == Tables(m, f, j) + Bit(Pde(m, u).present)
  {
  }

  lemma OneCopy(m: Mem, f: nat, t: nat, k: nat, p: Copy, q: Copy)
    requires CopyDirsIs(m, f, t, k, 1024, p) && CopyDirsIs(m, f, t, k, 1024, q)
    ensures p == q
  {
  }

  lemma SamePresence(m: Mem, p: Mem, lo: nat, hi: nat, u: nat)
    requires Forked(m, p, lo, hi) && 16 <= u < 1024 && !(lo <= u < hi)
    ensures Pde(p, u).present == Pde(m, u).present
  {
    assert ProtectedDir(m, p, u);
  }

  /** copy_page_tables runs out of memory exactly when the parent's range has more tables than
      there are free frames. */
  lemma {:induction false} DirsFail(m: Mem, owned: set<nat>, f: nat, t: nat, k: nat) returns (r: Copy)
    requires Inv(m, owned) && ForkRanges(m, f, t, k)
    ensures CopyDirsIs(m, f, t, k, 1024, r)
    ensures r.NoMemory? <==> |FreeFrames(m)| < Tables(m, f, k)
    ensures r.Copied? ==> |FreeFrames(r.mem)| == |FreeFrames(m)| - Tables(m, f, k)
  {
    if k == 0 {
      r := Copied(m);
    } else {
      var j, u, v := k - 1, f + k - 1, t + k - 1;
      var q := DirsFail(m, owned, f, t, j);
      var r1 := CopyDirsKeep(m, owned, f, t, j);
      OneCopy(m, f, t, j, q, r1);
      if r1.Copied? {
        var p := r1.mem;
        NextPair(m, p, f, t, k, u, v);
        SamePresence(m, p, t, v, u);
        r := DirFails(p, owned, u, v);
        CopyDirsOnce(m, f, t, k, 1024, p, u, v, r);
        OneMoreTable(m, f, k, j, u);
      } else {
        OneMoreTable(m, f, k, j, u);
        r := r1;
        CopyDirsStop(m, f, t, k, 1024, r);
      }
    }
  }

  // ---------- fork ----------

  /** The tables fork has to duplicate: those of the parent's range. */
  function ForkTables(m: Mem, parent: nat, limit: nat): nat {
    Tables(m, 16 * parent, DirCount(limit))
  }

  lemma CopyMemFails(m: Mem, owned: set<nat>, parent: nat, child: nat, limit: nat)
    requires Inv(m, owned) && MayFork(m, parent, child, limit)
    ensures CopyMem(m, parent, child, limit).Done?
    ensures !CopyMem(m, parent, child, limit).value.1 <==> |FreeFrames(m)| < ForkTables(m, parent, limit)
    ensures var (n, ok) := CopyMem(m, parent, child, limit).value;
            ok ==> |FreeFrames(n)| == |FreeFrames(m)| - ForkTables(m, parent, limit)
  {
    var n, ok := CopyMemKeeps(m, owned, parent, child, limit);
    var f, t, k := 16 * parent, 16 * child, DirCount(limit);
    assert DirOf(Base(parent)) == f && DirOf(Base(child)) == t;
    if parent == 0 {
      var r := ImageDirFails(m, owned, t);
      assert CopyDirs(m, 0, t, 1, 160) == r;
      assert Pde(m, 0) == Grant(1);
      assert Tables(m, 0, 0) == 0 && Tables(m, 0, 1) == 1;
    } else {
      var r := DirsFail(m, owned, f, t, k);
    }
  }

  lemma CopyProcessFails(s: Sys, parent: nat, nr: nat)
    requires SysInv(s) && Alive(s, parent) && 1 <= nr < 64 && s.task[nr].Null?
             && (parent == 0 ==> DirCount(s.limit) == 1)
    requires CopyProcess(s, parent, nr).Done?
    ensures CopyProcess(s, parent, nr).value.1 == Failed
            <==> |FreeFrames(s.mem)| < 1 + ForkTables(s.mem, parent, s.limit)
    ensures var (u, o) := CopyProcess(s, parent, nr).value;
            o != Failed ==> |FreeFrames(u.mem)| == |FreeFrames(s.mem)| - 1 - ForkTables(s.mem, parent, s.limit)
  {
    var (m1, g) := GetFreePage(s.mem);
    NoneFree(s.mem);
    if g != 0 {
      var owned := Pages(s.task);
      GetFreeEffect(s.mem);
      OneTaken(s.mem, m1, g);
      TookKeeps(s.mem, m1, g, owned);
      SameNames(s.mem, m1);
      TablesAgree(s.mem, m1, 16 * parent, DirCount(s.limit));
      RangeAbsent(s, nr);
      CopyMemFails(m1, owned + {g}, parent, nr, s.limit);
    }
  }

  /** fork fails if and only if no slot from 1 on is free or fewer frames are free than it needs:
      one for the task page and one for each table of the parent. It takes exactly those. */
  lemma ForkFails(s: Sys, parent: nat)
    requires SysInv(s) && Alive(s, parent) && (parent == 0 ==> DirCount(s.limit) == 1)
    ensures Fork(s, parent).Done?
    ensures Fork(s, parent).value.1 == Failed <==>
              (forall j | 1 <= j < 64 :: s.task[j].Used?)
                || |FreeFrames(s.mem)| < 1 + ForkTables(s.mem, parent, s.limit)
    ensures var (u, o) := Fork(s, parent).value;
            o != Failed ==> |FreeFrames(u.mem)| == |FreeFrames(s.mem)| - 1 - ForkTables(s.mem, parent, s.limit)
  {
    var u, o := ForkKeeps(s, parent);
    var nr := EmptySlot(s.task, 1);
    if nr >= 0 {
      var s1 := s.(lastPid := Pids.FindPid(PidsOf(s.task), s.lastPid));
      Pids.FindPidFresh(PidsOf(s.task), s.lastPid);
      CopyProcessFails(s1, parent, nr);
    }
  }

  // ---------- verify_area ----------

  /** The pages of a range that un_wp_page has to replace. */
  function ToReplace(m: Mem, first: nat, k: nat): nat {
    if k == 0 then 0
    else ToReplace(m, first, k - 1) + Bit(Replaced(m, (first + k - 1) / 1024, (first + k - 1) % 1024))
  }

  /** un_wp_page takes one frame for a page it has to replace and none otherwise. */
  lemma ProtectTakes(m: Mem, owned: set<nat>, d: nat, i: nat, x: nat, copies: bool, r: Run<Mem>)
    requires Inv(m, owned) && 16 <= d < 1024 && i < 1024 && Maps(m, d, i) && x == PteIndex(m, d, i)
    requires UnWpIs(m, x, copies, r)
    ensures r.Oom? <==> !Alone(m, d, i) && FreeFrames(m) == {}
    ensures r.Done? ==> |FreeFrames(r.value)| == |FreeFrames(m)| - Bit(!Alone(m, d, i))
  {
    ProtectFails(m, owned, d, i, copies);
    if r.Done? {
      if Alone(m, d, i) {
        SameCounts(m, r.value);
      } else {
        NoneFree(m);
        GetFreeEffect(m);
        var (m1, g) := GetFreePage(m);
        PrepareNewPage(m, owned, d, i, copies);
        var m2 := NewPage(m, d, i, copies);
        TookSameEntry(m, m2, d, i);
        UnWpIsMoved(m, d, i, copies);
        CountOfShared(m, owned, d, i);
        MovedCounts(m2, d, i, g);
        NewPageCounts(m, d, i, copies);
        assert r.value == Moved(m2, d, i, g);
        MovedFree(m1, m2, r.value, d, i);
        OneTaken(m, m1, g);
      }
    }
  }

  lemma NewPageCounts(m: Mem, d: nat, i: nat, copies: bool)
    ensures forall f | 256 <= f < 4096 :: Count(NewPage(m, d, i, copies), f) == Count(GetFreePage(m).0, f)
  {
  }

  lemma CountOfShared(m: Mem, owned: set<nat>, d: nat, i: nat)
    requires Inv(m, owned) && 16 <= d < 1024 && i < 1024 && Maps(m, d, i) && !Alone(m, d, i)
    ensures Pte(m, d, i).frame >= 256 ==> Pte(m, d, i).frame < 4096 && Count(m, Pte(m, d, i).frame) >= 2
  {
    var f := Pte(m, d, i).frame;
    if f >= 256 {
      assert Names(m, d, i, f) && (d, i) in Refs(m, f);
      assert |Refs(m, f)| > 0;
    }
  }

  lemma MovedFree(m1: Mem, m2: Mem, n: Mem, d: nat, i: nat)
    requires forall f | 256 <= f < 4096 :: Count(m2, f) == Count(m1, f)
    requires forall f | 256 <= f < 4096 :: Count(n, f) == Count(m2, f) - Bit(f == Pte(m2, d, i).frame)
    requires Pte(m2, d, i).frame >= 256 ==> Count(m2, Pte(m2, d, i).frame) >= 2
    ensures FreeFrames(n) == FreeFrames(m1)
  {
    SameCounts(m1, n);
  }

  lemma PageIndex(addr: nat, page: nat)
    requires addr == page * 4096
    ensures DirOf(addr) == page / 1024 && TabOf(addr) == page % 1024
  {
    var q, r := page / 1024, page % 1024;
    assert addr == q * 0x40_0000 + r * 4096 && r * 4096 < 0x40_0000;
    assert addr / 4096 == page;
  }

  lemma WriteVerifyIdle(m: Mem, addr: nat, copies: bool)
    requires Maps(m, DirOf(addr), TabOf(addr)) ==> Pte(m, DirOf(addr), TabOf(addr)).writable
    ensures WriteVerify(m, addr, copies) == Done(m)
  {
  }

  lemma WriteVerifyTakes(m: Mem, owned: set<nat>, addr: nat, page: nat, copies: bool)
    requires Inv(m, owned) && 0x400_0000 <= addr < 0x1_0000_0000 && addr == page * 4096
    ensures var r, needs := WriteVerify(m, addr, copies), Replaced(m, page / 1024, page % 1024);
            && (r.Oom? <==> |FreeFrames(m)| < Bit(needs))
            && (r.Done? ==> |FreeFrames(r.value)| == |FreeFrames(m)| - Bit(needs))
  {
    var d, i := DirOf(addr), TabOf(addr);
    PageIndex(addr, page);
    if Maps(m, d, i) && !Pte(m, d, i).writable {
      var x := PteIndex(m, d, i);
      var r := UnWpPage(m, x, copies);
      ProtectTakes(m, owned, d, i, x, copies, r);
      WriteVerifyFaults(m, addr, x, copies, r);
    } else {
      WriteVerifyIdle(m, addr, copies);
    }
  }

  /** verify_area on a range of up to 64MB runs out of memory exactly when it has more pages to
      replace than there are free frames. */
  lemma {:induction false} VerifyFails(m: Mem, owned: set<nat>, start: nat, first: nat, k: nat, copies: bool)
    returns (r: Run<Mem>)
    requires Inv(m, owned) && start == first * 4096 && 16384 <= first && first + k <= 1048576 && k <= 16384
    ensures VerifyPagesIs(m, start, k, copies, r)
    ensures r.Oom? <==> |FreeFrames(m)| < ToReplace(m, first, k)
    ensures r.Done? ==> |FreeFrames(r.value)| == |FreeFrames(m)| - ToReplace(m, first, k)
  {
    if k == 0 {
      r := Done(m);
    } else {
      var j := k - 1;
      var q := VerifyFails(m, owned, start, first, j, copies);
      var r1 := Verified(m, owned, start, first, j, copies);
      SameVerified(m, start, j, copies, q, r1);
      if r1.Done? {
        var page, addr := first + j, start + 4096 * j;
        NextSettled(m, r1.value, first, page, copies);
        WriteVerifyTakes(r1.value, owned, addr, page, copies);
        OneMorePage(m, first, j, k, page);
        r := WriteVerify(r1.value, addr, copies);
        VerifyOnce(m, start, k, copies, r1.value, addr, r);
      } else {
        OneMorePage(m, first, j, k, first + j);
        r := r1;
        VerifyStops(m, start, k, copies, r);
      }
    }
  }

  lemma NextSettled(m: Mem, p: Mem, first: nat, page: nat, copies: bool)
    requires first <= page < first + 16384 && page < 1048576 && Swept(m, p, first, page, copies)
    ensures Replaced(p, page / 1024, page % 1024) == Replaced(m, page / 1024, page % 1024)
  {
    assert Settled(m, p, page);
  }

  lemma OneMorePage(m: Mem, first: nat, j: nat, k: nat, page: nat)
    requires k == j + 1 && page == first + j
    ensures ToReplace(m, first, k) == ToReplace(m, first, j) + Bit(Replaced(m, page / 1024, page % 1024))
  {
  }

  lemma SameVerified(m: Mem, start: nat, k: nat, copies: bool, p: Run<Mem>, q: Run<Mem>)
    requires VerifyPagesIs(m, start, k, copies, p) && VerifyPagesIs(m, start, k, copies, q)
    ensures p == q
  {
  }

  // ---------- every step ----------

  /** The free frames a step needs. */
  function Needs(s: Sys, e: Event): nat
    requires |s.task| == 64 && Enabled(s, e)
  {
    match e
    case EvFork(n) => 1 + ForkTables(s.mem, n, s.limit)
    case EvExit(n) => 0
    case EvRelease(n) => 0
    case EvLoad(n, off) => AccessNeeds(s.mem, DirOf(Base(n) + off), TabOf(Base(n) + off), false)
    case EvStore(n, off, w) => AccessNeeds(s.mem, DirOf(Base(n) + off), TabOf(Base(n) + off), true)
    case EvVerify(n, off, size) => ToReplace(s.mem, (Base(n) + off) / 4096, PageCount(off, size))
  }

  /** The step's failure is exactly the lack of the frames it needs, or, for fork, of a slot. */
  ghost predicate FailsExactly(s: Sys, e: Event, copies: bool)
    requires |s.task| == 64 && Enabled(s, e)
  {
    var r := Step(s, e, copies);
    if e.EvFork? then
      && r.Done?
      && (r.value.1 == Failed <==> (forall j | 1 <= j < 64 :: s.task[j].Used?) || |FreeFrames(s.mem)| < Needs(s, e))
    else r.Oom? <==> |FreeFrames(s.mem)| < Needs(s, e)
  }

  lemma ForkFailsExactly(s: Sys, n: nat, copies: bool)
    requires SysInv(s) && Enabled(s, EvFork(n))
    ensures FailsExactly(s, EvFork(n), copies)
  {
    ForkFails(s, n);
  }

  lemma FailsFrom(s: Sys, e: Event, copies: bool, oom: bool, k: nat)
    requires |s.task| == 64 && Enabled(s, e) && !e.EvFork? && k == Needs(s, e)
    requires (oom <==> Step(s, e, copies).Oom?) && (oom <==> |FreeFrames(s.mem)| < k)
    ensures FailsExactly(s, e, copies)
  {
  }

  lemma LoadFailsExactly(s: Sys, n: nat, off: nat, copies: bool)
    requires SysInv(s) && Enabled(s, EvLoad(n, off))
    ensures FailsExactly(s, EvLoad(n, off), copies)
  {
    Where(n, off, s.limit);
    var addr := Base(n) + off;
    AccessFails(s.mem, Pages(s.task), addr, false, copies);
    var oom, k := Access(s.mem, addr, false, copies).Oom?, AccessNeeds(s.mem, DirOf(addr), TabOf(addr), false);
    LoadOom(s, n, off, addr, copies, oom, k);
  }

  lemma LoadOom(s: Sys, n: nat, off: nat, addr: nat, copies: bool, oom: bool, k: nat)
    requires |s.task| == 64 && Enabled(s, EvLoad(n, off)) && addr == Base(n) + off && (oom <==> |FreeFrames(s.mem)| < k)
    requires oom == Access(s.mem, addr, false, copies).Oom? && k == AccessNeeds(s.mem, DirOf(addr), TabOf(addr), false)
    ensures FailsExactly(s, EvLoad(n, off), copies)
  {
    LoadStepOom(s, n, off, addr, copies);
    LoadNeedsOf(s, n, off, addr);
    FailsFrom(s, EvLoad(n, off), copies, oom, k);
  }

  lemma LoadStepOom(s: Sys, n: nat, off: nat, addr: nat, copies: bool)
    requires |s.task| == 64 && Enabled(s, EvLoad(n, off)) && addr == Base(n) + off
    ensures Step(s, EvLoad(n, off), copies).Oom? <==> Access(s.mem, addr, false, copies).Oom?
  {
    assert Load(s, n, off, copies).Oom? <==> Access(s.mem, addr, false, copies).Oom?;
  }

  lemma LoadNeedsOf(s: Sys, n: nat, off: nat, addr: nat)
    requires |s.task| == 64 && Enabled(s, EvLoad(n, off)) && addr == Base(n) + off
    ensures Needs(s, EvLoad(n, off)) == AccessNeeds(s.mem, DirOf(addr), TabOf(addr), false)
  {
  }

  lemma StoreFailsExactly(s: Sys, n: nat, off: nat, w: Word, copies: bool)
    requires SysInv(s) && Enabled(s, EvStore(n, off, w))
    ensures FailsExactly(s, EvStore(n, off, w), copies)
  {
    Where(n, off, s.limit);
    var addr := Base(n) + off;
    AccessFails(s.mem, Pages(s.task), addr, true, copies);
    var oom, k := Access(s.mem, addr, true, copies).Oom?, AccessNeeds(s.mem, DirOf(addr), TabOf(addr), true);
    StoreOom(s, n, off, w, addr, copies, oom, k);
  }

  lemma StoreOom(s: Sys, n: nat, off: nat, w: Word, addr: nat, copies: bool, oom: bool, k: nat)
    requires |s.task| == 64 && Enabled(s, EvStore(n, off, w)) && addr == Base(n) + off
    requires oom == Access(s.mem, addr, true, copies).Oom? && k == AccessNeeds(s.mem, DirOf(addr), TabOf(addr), true)
    requires oom <==> |FreeFrames(s.mem)| < k
    ensures FailsExactly(s, EvStore(n, off, w), copies)
  {
    StoreStepOom(s, n, off, w, addr, copies);
    StoreNeedsOf(s, n, off, w, addr);
    FailsFrom(s, EvStore(n, off, w), copies, oom, k);
  }

  lemma StoreStepOom(s: Sys, n: nat, off: nat, w: Word, addr: nat, copies: bool)
    requires |s.task| == 64 && Enabled(s, EvStore(n, off, w)) && addr == Base(n) + off
    ensures Step(s, EvStore(n, off, w), copies).Oom? <==> Access(s.mem, addr, true, copies).Oom?
  {
    StoreOomIs(s, n, off, w, addr, copies);
  }

  lemma StoreOomIs(s: Sys, n: nat, off: nat, w: Word, addr: nat, copies: bool)
    requires addr == Base(n) + off
    ensures Store(s, n, off, w, copies).Oom? <==> Access(s.mem, addr, true, copies).Oom?
  {
  }

  lemma StoreNeedsOf(s: Sys, n: nat, off: nat, w: Word, addr: nat)
    requires |s.task| == 64 && Enabled(s, EvStore(n, off, w)) && addr == Base(n) + off
    ensures Needs(s, EvStore(n, off, w)) == AccessNeeds(s.mem, DirOf(addr), TabOf(addr), true)
  {
  }

  lemma VerifyFailsExactly(s: Sys, n: nat, off: nat, size: nat, copies: bool)
    requires SysInv(s) && Enabled(s, EvVerify(n, off, size))
    ensures FailsExactly(s, EvVerify(n, off, size), copies)
  {
    var start, first, k := FirstPage(Base(n), off), (Base(n) + off) / 4096, PageCount(off, size);
    AreaPages(Base(n), off, size);
    var r := VerifyFails(s.mem, Pages(s.task), start, first, k, copies);
    VerifyOom(s, n, off, size, copies, r);
    VerifyNeedsOf(s, n, off, size, first, k);
    FailsFrom(s, EvVerify(n, off, size), copies, r.Oom?, ToReplace(s.mem, first, k));
  }

  lemma VerifyNeedsOf(s: Sys, n: nat, off: nat, size: nat, first: nat, k: nat)
    requires |s.task| == 64 && Enabled(s, EvVerify(n, off, size))
    requires first == (Base(n) + off) / 4096 && k == PageCount(off, size)
    ensures Needs(s, EvVerify(n, off, size)) == ToReplace(s.mem, first, k)
  {
  }

  lemma VerifyOom(s: Sys, n: nat, off: nat, size: nat, copies: bool, r: Run<Mem>)
    requires |s.task| == 64 && Enabled(s, EvVerify(n, off, size))
    requires VerifyPagesIs(s.mem, FirstPage(Base(n), off), PageCount(off, size), copies, r)
    ensures Step(s, EvVerify(n, off, size), copies).Oom? <==> r.Oom?
  {
    assert Step(s, EvVerify(n, off, size), copies).Oom? <==> Verify(s, n, off, size, copies).Oom?;
  }

  lemma ExitNeverFails(s: Sys, n: nat, copies: bool)
    requires SysInv(s)
    ensures Enabled(s, EvExit(n)) ==> FailsExactly(s, EvExit(n), copies)
    ensures Enabled(s, EvRelease(n)) ==> FailsExactly(s, EvRelease(n), copies)
  {
    if Enabled(s, EvExit(n)) {
      var u := ExitKeeps(s, n);
    }
    if Enabled(s, EvRelease(n)) {
      var u := ReleaseKeeps(s, n);
    }
  }

  /** A step other than fork ends in the `oom` panic if and only if fewer frames are free than it
      needs; fork never does, and reports failure exactly for lack of frames or of a slot. */
  lemma StepFails(s: Sys, e: Event, copies: bool)
    requires SysInv(s) && Enabled(s, e)
    ensures FailsExactly(s, e, copies)
  {
    match e
    case EvFork(n) => ForkFailsExactly(s, n, copies);
    case EvExit(n) => ExitNeverFails(s, n, copies);
    case EvRelease(n) => ExitNeverFails(s, n, copies);
    case EvLoad(n, off) => LoadFailsExactly(s, n, off, copies);
    case EvStore(n, off, w) => StoreFailsExactly(s, n, off, w, copies);
    case EvVerify(n, off, size) => VerifyFailsExactly(s, n, off, size, copies);
  }
}
