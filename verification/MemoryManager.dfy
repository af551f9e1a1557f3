/** mm/memory.c as it runs: `mem_map` and physical memory updated in place. Each method is
    proved against the function of the same name in Memory. `panic` and `oom` halt the
    machine, so a method reports them instead of returning a state. */
module MemoryManager {
  import opened Paging
  import M = Memory
  import I = CowInvariant

  /** Page tables stay inside physical memory, away from the directory. */
  ghost predicate InRam(m: M.Mem) {
    && (forall d | 0 <= d < 1024 && M.Pde(m, d).present :: 1 <= M.Pde(m, d).frame < 4096)
    && (forall d, i | 0 <= d < 1024 && 0 <= i < 1024 && I.Maps(m, d, i) :: M.Pte(m, d, i).frame < 4096)
  }

  lemma InvInRam(m: M.Mem, owned: set<nat>)
    requires I.Inv(m, owned)
    ensures InRam(m)
  {
    forall d, i | 0 <= d < 1024 && 0 <= i < 1024 && I.Maps(m, d, i)
      ensures M.Pte(m, d, i).frame < 4096
    {
      if d < 4 {
        assert M.Pde(m, d) == Grant(d + 1);
        assert M.Peek(m, (d + 1) * 1024 + i) == Grant((d + 1) * 1024 + i - 1024);
      }
    }
  }

  /** Writing an entry or a data word above the directory. */
  lemma PokeInRam(m: M.Mem, n: M.Mem, x: nat, w: Word)
    requires InRam(m) && x >= 1024 && (w.present ==> w.frame < 4096) && n.ram == M.Poke(m, x, w).ram
    ensures InRam(n)
  {
    forall d | 0 <= d < 1024
      ensures M.Pde(n, d) == M.Pde(m, d)
    {
    }
    forall d, i | 0 <= d < 1024 && 0 <= i < 1024 && I.Maps(n, d, i)
      ensures M.Pte(n, d, i).frame < 4096
    {
      assert M.Pte(n, d, i) == w || I.Maps(m, d, i);
    }
  }

  lemma TookInRam(m: M.Mem, n: M.Mem, g: nat)
    requires InRam(m) && I.Took(m, n, g)
    ensures InRam(n)
  {
    forall d | 0 <= d < 1024
      ensures M.Pde(n, d) == M.Pde(m, d)
    {
    }
    forall d, i | 0 <= d < 1024 && 0 <= i < 1024 && I.Maps(n, d, i)
      ensures M.Pte(n, d, i).frame < 4096
    {
      assert M.Pte(n, d, i) == ZERO || I.Maps(m, d, i);
    }
  }

  /** A fresh table is entered in the directory. */
  lemma TableInRam(m: M.Mem, d: nat, g: nat)
    requires InRam(m) && d < 1024 && 256 <= g < 4096
    requires forall x | g * 1024 <= x < g * 1024 + 1024 :: M.Peek(m, x) == ZERO
    ensures InRam(M.Poke(m, d, Grant(g)))
  {
    var n := M.Poke(m, d, Grant(g));
    forall e | 0 <= e < 1024
      ensures M.Pde(n, e) == if e == d then Grant(g) else M.Pde(m, e)
    {
    }
    forall i | 0 <= i < 1024
      ensures M.Pte(n, d, i) == ZERO
    {
      assert M.Peek(n, g * 1024 + i) == M.Peek(m, g * 1024 + i);
    }
    forall e, i | 0 <= e < 1024 && 0 <= i < 1024 && I.Maps(n, e, i)
      ensures M.Pte(n, e, i).frame < 4096
    {
      assert e != d ==> I.Maps(m, e, i);
    }
  }

  class PhysicalMemory {
    const memMap: array<M.Byte>
    const ram: array<Word>
    var highMemory: nat

    predicate Valid()
      reads this
    {
      && memMap.Length == 3840 && ram.Length == 4096 * 1024
      && 256 * 4096 <= highMemory <= 4096 * 4096
    }

    function View(): M.Mem
      requires Valid()
      reads this, memMap, ram
    {
      M.Physical(memMap[..], ram[..], highMemory)
    }

    constructor ()
      ensures Valid() && fresh(memMap) && fresh(ram)
    {
      memMap := new M.Byte[3840](_ => 0);
      ram := new Word[4194304](_ => ZERO);
      highMemory := 0x100_0000;
    }

    method Write(x: nat, w: Word)
      requires Valid() && x < 4096 * 1024
      modifies ram
      ensures Valid() && View() == M.Poke(old(View()), x, w)
    {
      ram[x] := w;
    }

    method SetCount(f: nat, c: M.Byte)
      requires Valid() && 256 <= f < 4096
      modifies memMap
      ensures Valid() && View() == M.SetCount(old(View()), f, c)
    {
      memMap[f - 256] := c;
    }

    method MemInit(startMem: nat, endMem: nat)
      requires Valid() && M.LOW_MEM <= startMem <= endMem <= 0x100_0000
      modifies this, memMap
      ensures Valid() && View() == M.MemInit(old(View()), startMem, endMem)
      ensures highMemory == endMem && forall k | 0 <= k < 3840 ::
                memMap[k] == if startMem / 4096 <= k + 256 < startMem / 4096 + (endMem - startMem) / 4096 then 0
                  else M.USED
    {
      highMemory := endMem;
      var i := 0;
      while i < 3840
        invariant 0 <= i <= 3840
        invariant forall k | 0 <= k < i :: memMap[k] == M.USED
        modifies memMap
      {
        memMap[i] := M.USED;
        i := i + 1;
      }
      ghost var first := (startMem - M.LOW_MEM) / 4096;
      i := (startMem - M.LOW_MEM) / 4096;
      var left := (endMem - startMem) / 4096;
      while left > 0
        invariant 0 <= left && first <= i && i + left == first + (endMem - startMem) / 4096
        invariant forall k | 0 <= k < 3840 :: memMap[k] == if first <= k < i then 0 else M.USED
        modifies memMap
      {
        left := left - 1;
        memMap[i] := 0;
        i := i + 1;
      }
      assert memMap[..] == M.MemInit(old(View()), startMem, endMem).count;
    }

    /** The scan runs from the top of `mem_map` down; the page is cleared from its last word. */
    method GetFreePage() returns (page: nat)
      requires Valid()
      modifies memMap, ram
      ensures Valid() && View() == M.GetFreePage(old(View())).0 && page == M.GetFreePage(old(View())).1 * 4096
      ensures page == 0 ==> (forall k | 0 <= k < 3840 :: memMap[k] != 0) && View() == old(View())
      ensures page != 0 ==> 256 <= page / 4096 < 4096 && page % 4096 == 0 && old(memMap[page / 4096 - 256]) == 0
      ensures page != 0 ==> forall k | page / 4096 - 256 < k < 3840 :: old(memMap[k]) != 0
      ensures page != 0 ==> memMap[..] == old(memMap[..])[page / 4096 - 256 := 1]
    {
      ghost var m := View();
      var ecx := 3840;
      while ecx > 0 && memMap[ecx - 1] != 0
        invariant 0 <= ecx <= 3840
        invariant M.HighestFree(m.count, ecx) == M.HighestFree(m.count, 3840)
      {
        ecx := ecx - 1;
      }
      if ecx == 0 {
        return 0;
      }
      memMap[ecx - 1] := 1;
      var frame := 256 + (ecx - 1);
      var edi := 1024;
      while edi > 0
        invariant 0 <= edi <= 1024
        invariant forall x | 0 <= x < ram.Length ::
                    ram[x] == if frame * 1024 + edi <= x < frame * 1024 + 1024 then ZERO else m.ram[x]
        invariant memMap[..] == m.count[frame - 256 := 1]
      {
        edi := edi - 1;
        ram[frame * 1024 + edi] := ZERO;
      }
      assert ram[..] == M.ZeroPage(m.ram, frame);
      page := frame * 4096;
    }

    /** False when the panic "Trying to free free page!" is reached. */
    method FreePage(addr: nat) returns (ok: bool)
      requires Valid()
      modifies memMap
      ensures Valid() && (ok <==> M.FreePage(old(View()), addr).Done?)
      ensures ok ==> View() == M.FreePage(old(View()), addr).value
      ensures !ok ==> M.FreePage(old(View()), addr).Panic?
      ensures var k := (addr - M.LOW_MEM) / 4096;
              if addr < M.LOW_MEM || addr >= highMemory then ok && memMap[..] == old(memMap[..])
              else (ok <==> old(memMap[k]) > 0) && (ok ==> memMap[..] == old(memMap[..])[k := old(memMap[k]) - 1])
    {
      if addr < M.LOW_MEM || addr >= highMemory {
        return true;
      }
      var nr := (addr - M.LOW_MEM) / 4096;
      var c: int := memMap[nr];
      ok := c != 0;
      memMap[nr] := (c + 255) % 256;
      if !ok {
        memMap[nr] := 0;
      }
    }

    /** The loop over one table; `table` is the index of its first word. */
    method FreeEntries(table: nat) returns (ok: bool)
      requires Valid() && InRam(View()) && 1024 <= table <= 4095 * 1024
      modifies memMap, ram
      ensures Valid() && (ok <==> M.FreeEntries(old(View()), table, 1024).Done?)
      ensures ok ==> View() == M.FreeEntries(old(View()), table, 1024).value && InRam(View())
      ensures ok ==> forall x | 0 <= x < 1024 :: M.Peek(View(), x) == M.Peek(old(View()), x)
      ensures !ok ==> M.FreeEntries(old(View()), table, 1024).Panic?
    {
      ghost var m := View();
      var nr := 0;
      while nr < 1024
        invariant 0 <= nr <= 1024 && Valid() && InRam(View())
        invariant M.FreeEntries(m, table, nr) == M.Done(View())
        invariant forall x | 0 <= x < 1024 :: M.Peek(View(), x) == M.Peek(m, x)
      {
        ghost var before := View();
        var pgTbl := ram[table + nr];
        assert pgTbl == M.Peek(before, table + nr);
        if pgTbl.present {
          ok := FreePage(pgTbl.frame * 4096);
          if !ok {
            FreeEntriesFails(m, table, nr + 1, 1024);
            return;
          }
        }
        ghost var freed := View();
        Write(table + nr, ZERO);
        PokeInRam(before, View(), table + nr, ZERO);
        nr := nr + 1;
      }
      ok := true;
    }

    /** One directory entry: its table, then the frame of the table, then the entry. */
    method FreeDir(d: nat) returns (ok: bool)
      requires Valid() && InRam(View()) && d < 1024
      modifies memMap, ram
      ensures Valid() && (ok <==> M.FreeDir(old(View()), d).Done?)
      ensures ok ==> View() == M.FreeDir(old(View()), d).value && InRam(View())
      ensures !ok ==> M.FreeDir(old(View()), d).Panic?
    {
      ghost var m := View();
      var pde := ram[d];
      assert pde == M.Pde(m, d);
      if !pde.present {
        return true;
      }
      ok := FreeEntries(pde.frame * 1024);
      if !ok {
        return;
      }
      assert ram[d] == M.Peek(View(), d);
      ghost var emptied := View();
      ok := FreePage(ram[d].frame * 4096);
      if !ok {
        return;
      }
      Write(d, ZERO);
      RemovedInRam(emptied, View(), d);
    }

    /** Panics, reported as false, on an unaligned range, on address 0, or in free_page. */
    method FreePageTables(from: nat, size: nat) returns (ok: bool)
      requires Valid() && InRam(View()) && M.DirOf(from) + M.DirCount(size) <= 1024
      modifies memMap, ram
      ensures Valid() && (ok <==> M.FreePageTables(old(View()), from, size).Done?)
      ensures ok ==> View() == M.FreePageTables(old(View()), from, size).value && InRam(View())
    {
      if from % 0x40_0000 != 0 || from == 0 {
        return false;
      }
      ghost var m := View();
      var n := (size + 0x3f_ffff) / 0x40_0000;
      var pgDir := from / 0x40_0000;
      var done := 0;
      while done < n
        invariant 0 <= done <= n && Valid() && InRam(View())
        invariant M.FreeDirs(m, M.DirOf(from), done) == M.Done(View())
      {
        ok := FreeDir(pgDir + done);
        if !ok {
          FreeDirsFails(m, M.DirOf(from), done + 1, n);
          return;
        }
        done := done + 1;
      }
      ok := true;
    }

    /** The page, or 0 when no table could be allocated. */
    method PutPage(page: nat, address: nat) returns (r: nat)
      requires Valid() && InRam(View()) && page % 4096 == 0 && M.LOW_MEM <= page < 0x100_0000 && address < 0x1_0000_0000
      modifies memMap, ram
      ensures Valid() && View() == M.PutPage(old(View()), page / 4096, address).0 && InRam(View())
      ensures r == if M.PutPage(old(View()), page / 4096, address).1 then page else 0
    {
      ghost var m := View();
      var d := address / 0x40_0000;
      var pgTbl := ram[d].frame * 1024;
      assert ram[d] == M.Pde(m, d);
      if !ram[d].present {
        var tmp := GetFreePage();
        I.GetFreeEffect(m);
        if tmp == 0 {
          return 0;
        }
        TookInRam(m, View(), tmp / 4096);
        TableInRam(View(), d, tmp / 4096);
        Write(d, Grant(tmp / 4096));
        pgTbl := tmp / 4096 * 1024;
      }
      ghost var tabled := View();
      Write(pgTbl + address / 4096 % 1024, Grant(page / 4096));
      PokeInRam(tabled, View(), pgTbl + address / 4096 % 1024, Grant(page / 4096));
      r := page;
    }

    /** The literal body, without a copy; false when memory runs out. */
    method UnWpPage(entry: nat) returns (ok: bool)
      requires Valid() && InRam(View()) && 1024 <= entry < 4096 * 1024 && ram[entry].frame < 4096
      modifies memMap, ram
      ensures Valid() && (ok <==> M.UnWpPage(old(View()), entry, false).Done?)
      ensures ok ==> View() == M.UnWpPage(old(View()), entry, false).value && InRam(View())
      ensures !ok ==> M.UnWpPage(old(View()), entry, false).Oom?
    {
      ghost var m := View();
      var oldPage := ram[entry].frame;
      assert ram[entry] == M.Peek(m, entry);
      if oldPage >= 256 && memMap[oldPage - 256] == 1 {
        Write(entry, ReadWrite(ram[entry]));
        PokeInRam(m, View(), entry, ReadWrite(ram[entry]));
        return true;
      }
      var newPage := GetFreePage();
      I.GetFreeEffect(m);
      if newPage == 0 {
        return false;
      }
      ghost var took := View();
      TookInRam(m, took, newPage / 4096);
      if oldPage >= 256 {
        var c: int := memMap[oldPage - 256];
        SetCount(oldPage, (c + 255) % 256);
      }
      Write(entry, Grant(newPage / 4096));
      PokeInRam(took, View(), entry, Grant(newPage / 4096));
      ok := true;
    }

    method WriteVerify(address: nat) returns (ok: bool)
      requires Valid() && InRam(View()) && address < 0x1_0000_0000
      modifies memMap, ram
      ensures Valid() && (ok <==> M.WriteVerify(old(View()), address, false).Done?)
      ensures ok ==> View() == M.WriteVerify(old(View()), address, false).value && InRam(View())
      ensures !ok ==> M.WriteVerify(old(View()), address, false).Oom?
    {
      ghost var m := View();
      var d := address / 0x40_0000;
      var page := ram[d];
      assert page == M.Pde(m, d);
      if !page.present {
        return true;
      }
      var entry := page.frame * 1024 + address / 4096 % 1024;
      assert ram[entry] == M.Peek(m, entry) && entry == M.PteIndex(m, M.DirOf(address), M.TabOf(address));
      ok := true;
      if ram[entry].present && !ram[entry].writable {
        assert I.Maps(m, d, M.TabOf(address));
        ok := UnWpPage(entry);
      }
    }

    /** The processor reports a protection fault only for a present entry. */
    method DoWpPage(address: nat) returns (ok: bool)
      requires Valid() && InRam(View()) && address < 0x1_0000_0000 && I.Maps(View(), M.DirOf(address), M.TabOf(address))
      modifies memMap, ram
      ensures Valid() && (ok <==> M.DoWpPage(old(View()), address, false).Done?)
      ensures ok ==> View() == M.DoWpPage(old(View()), address, false).value && InRam(View())
    {
      ghost var m := View();
      var entry := address / 4096 % 1024 + ram[address / 0x40_0000].frame * 1024;
      assert ram[address / 0x40_0000] == M.Pde(m, M.DirOf(address));
      assert entry == M.PteIndex(m, M.DirOf(address), M.TabOf(address));
      assert ram[entry] == M.Peek(m, entry);
      ok := UnWpPage(entry);
    }

    method DoNoPage(address: nat) returns (ok: bool)
      requires Valid() && InRam(View()) && address < 0x1_0000_0000
      modifies memMap, ram
      ensures Valid() && (ok <==> M.DoNoPage(old(View()), address).Done?)
      ensures ok ==> View() == M.DoNoPage(old(View()), address).value && InRam(View())
    {
      ghost var m := View();
      var page := GetFreePage();
      I.GetFreeEffect(m);
      if page == 0 {
        return false;
      }
      TookInRam(m, View(), page / 4096);
      var r := PutPage(page, address / 4096 * 4096);
      if r != 0 {
        return true;
      }
      var freed := FreePage(page);
      ok := false;
    }

    method PageFault(errorCode: nat, address: nat) returns (ok: bool)
      requires Valid() && InRam(View()) && address < 0x1_0000_0000
      requires errorCode % 2 != 0 ==> I.Maps(View(), M.DirOf(address), M.TabOf(address))
      modifies memMap, ram
      ensures Valid() && (ok <==> M.PageFault(old(View()), errorCode, address, false).Done?)
      ensures ok ==> View() == M.PageFault(old(View()), errorCode, address, false).value && InRam(View())
    {
      if errorCode % 2 != 0 {
        ok := DoWpPage(address);
      } else {
        ok := DoNoPage(address);
      }
    }

    /** The inner loop of copy_page_tables: nr entries from word x to word y. */
    method CopyEntries(x: nat, y: nat, nr: nat)
      requires Valid() && InRam(View()) && nr <= 1024
      requires 1024 <= x && x + nr <= 4096 * 1024 && 1024 <= y && y + nr <= 4096 * 1024
      requires forall z | x <= z < x + nr && M.Peek(View(), z).present :: M.Peek(View(), z).frame < 4096
      modifies memMap, ram
      ensures Valid() && View() == M.CopyEntries(old(View()), x, y, nr) && InRam(View())
    {
      ghost var m := View();
      var k := 0;
      while k < nr
        invariant 0 <= k <= nr && Valid() && InRam(View())
        invariant View() == M.CopyEntries(m, x, y, k)
        invariant forall z | x <= z < x + nr && M.Peek(View(), z).present :: M.Peek(View(), z).frame < 4096
      {
        CopyEntry(x + k, y + k);
        k := k + 1;
      }
    }

    method CopyEntry(x: nat, y: nat)
      requires Valid() && InRam(View()) && 1024 <= x < 4096 * 1024 && 1024 <= y < 4096 * 1024
      requires M.Peek(View(), x).present ==> M.Peek(View(), x).frame < 4096
      modifies memMap, ram
      ensures Valid() && View() == M.CopyEntry(old(View()), x, y) && InRam(View())
      ensures forall z: nat ::
                M.Peek(View(), z) == M.Peek(old(View()), z) || M.Peek(View(), z) == ReadOnly(M.Peek(old(View()), x))
    {
      ghost var m := View();
      var thisPage := ram[x];
      assert thisPage == M.Peek(m, x);
      if !thisPage.present {
        return;
      }
      thisPage := ReadOnly(thisPage);
      Write(y, thisPage);
      PokeInRam(m, View(), y, thisPage);
      if thisPage.frame >= 256 {
        ghost var shared := View();
        Write(x, thisPage);
        PokeInRam(shared, View(), x, thisPage);
        var c: int := memMap[thisPage.frame - 256];
        ghost var written := View();
        SetCount(thisPage.frame, (c + 1) % 256);
        SameRamInRam(written, View());
      }
    }

    /** One directory entry of copy_page_tables. */
    method CopyDir(f: nat, t: nat, nr: nat) returns (ok: bool, code: int)
      requires Valid() && InRam(View()) && f < 1024 && t < 1024 && nr <= 1024
      modifies memMap, ram
      ensures Valid() && Reports(M.CopyDir(old(View()), f, t, nr), ok, code)
    {
      ghost var m := View();
      assert ram[t] == M.Pde(m, t) && ram[f] == M.Pde(m, f);
      if ram[t].present {
        return false, 0;
      }
      if !ram[f].present {
        return true, 0;
      }
      var fromTable: nat := ram[f].frame;
      var page := GetFreePage();
      I.GetFreeEffect(m);
      if page == 0 {
        return true, -1;
      }
      ghost var took := View();
      var g := page / 4096;
      TookInRam(m, took, g);
      TableInRam(took, t, g);
      Write(t, Grant(g));
      SourceWords(m, took, View(), f, t, g);
      CopyEntries(fromTable * 1024, g * 1024, nr);
      ok, code := true, 0;
    }

    /** The method's report of a copy: it panicked, or returned the code with memory as stated. */
    ghost predicate Reports(r: M.Copy, ok: bool, code: int)
      requires Valid()
      reads this, memMap, ram
    {
      match r
      case Exists => !ok
      case Copied(n) => ok && code == 0 && View() == n && InRam(View())
      case NoMemory(n) => ok && code == -1 && View() == n && InRam(View())
    }

    method CopyPageTables(from: nat, to: nat, size: nat) returns (ok: bool, code: int)
      requires Valid() && InRam(View())
      requires M.DirOf(from) + M.DirCount(size) <= 1024 && M.DirOf(to) + M.DirCount(size) <= 1024
      modifies memMap, ram
      ensures Valid() && match M.CopyPageTables(old(View()), from, to, size)
                         case Done(r) => Reports(r, ok, code)
                         case other => !ok
    {
      if from % 0x40_0000 != 0 || to % 0x40_0000 != 0 {
        return false, 0;
      }
      ghost var m := View();
      var fromDir, toDir := from / 0x40_0000, to / 0x40_0000;
      var n := (size + 0x3f_ffff) / 0x40_0000;
      var nr := if from == 0 then 0xA0 else 1024;
      var done := 0;
      while done < n
        invariant 0 <= done <= n && Valid() && InRam(View())
        invariant M.CopyDirs(m, fromDir, toDir, done, nr) == M.Copied(View())
      {
        var f, t := fromDir + done, toDir + done;
        CopyDirsNext(m, fromDir, toDir, done, nr, View(), f, t);
        ok, code := CopyDir(f, t, nr);
        done := done + 1;
        if !ok || code != 0 {
          CopyDirsStay(m, fromDir, toDir, done, n, nr);
          return;
        }
      }
      ok, code := true, 0;
    }
  }

  lemma CopyDirsStay(m: M.Mem, f: nat, t: nat, k: nat, n: nat, nr: nat)
    requires k <= n && !M.CopyDirs(m, f, t, k, nr).Copied?
    ensures M.CopyDirs(m, f, t, n, nr) == M.CopyDirs(m, f, t, k, nr)
  {
    if k < n {
      CopyDirsStay(m, f, t, k, n - 1, nr);
    }
  }

  lemma SourceWords(m: M.Mem, took: M.Mem, n: M.Mem, f: nat, t: nat, g: nat)
    requires InRam(n) && f < 1024 && t < 1024 && f != t && I.Took(m, took, g) && n == M.Poke(took, t, Grant(g))
    requires M.Pde(m, f).present
    ensures M.Pde(n, f) == M.Pde(m, f)
    ensures forall z | M.Pde(m, f).frame * 1024 <= z < M.Pde(m, f).frame * 1024 + 1024 && M.Peek(n, z).present ::
            M.Peek(n, z).frame < 4096
  {
    var x := M.Pde(m, f).frame * 1024;
    forall z | x <= z < x + 1024 && M.Peek(n, z).present
      ensures M.Peek(n, z).frame < 4096
    {
      assert z == M.PteIndex(n, f, z - x);
      assert I.Maps(n, f, z - x);
    }
  }

  lemma CopyDirsNext(m: M.Mem, f: nat, t: nat, k: nat, nr: nat, p: M.Mem, u: nat, v: nat)
    requires M.CopyDirs(m, f, t, k, nr) == M.Copied(p) && u == f + k && v == t + k
    ensures M.CopyDirs(m, f, t, k + 1, nr) == M.CopyDir(p, u, v, nr)
  {
  }

  lemma SameRamInRam(m: M.Mem, n: M.Mem)
    requires InRam(m) && n.ram == m.ram
    ensures InRam(n)
  {
    forall d | 0 <= d < 1024
      ensures M.Pde(n, d) == M.Pde(m, d)
    {
    }
    forall e, i | 0 <= e < 1024 && 0 <= i < 1024 && I.Maps(n, e, i)
      ensures M.Pte(n, e, i).frame < 4096
    {
      assert I.Maps(m, e, i);
    }
  }

  lemma RemovedInRam(m: M.Mem, n: M.Mem, d: nat)
    requires InRam(m) && d < 1024 && n.ram == M.Poke(m, d, ZERO).ram
    ensures InRam(n)
  {
    forall e | 0 <= e < 1024
      ensures M.Pde(n, e) == if e == d then ZERO else M.Pde(m, e)
    {
    }
    forall e, i | 0 <= e < 1024 && 0 <= i < 1024 && I.Maps(n, e, i)
      ensures M.Pte(n, e, i).frame < 4096
    {
      assert I.Maps(m, e, i);
    }
  }

  lemma FreeDirsFails(m: M.Mem, d: nat, k: nat, n: nat)
    requires k <= n && !M.FreeDirs(m, d, k).Done?
    ensures !M.FreeDirs(m, d, n).Done?
  {
    if k < n {
      FreeDirsFails(m, d, k, n - 1);
    }
  }

  lemma FreeEntriesFails(m: M.Mem, table: nat, k: nat, n: nat)
    requires k <= n && M.FreeEntries(m, table, k).Panic?
    ensures M.FreeEntries(m, table, n).Panic?
  {
    if k < n {
      FreeEntriesFails(m, table, k, n - 1);
    }
  }
}
