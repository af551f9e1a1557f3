/** The page-fault handlers: demand-zero mapping and un-sharing on a write. */
module CowFaults {
  import opened Paging
  import opened Memory
  import opened CowInvariant
  import opened CowSteps

  // ---------- put_page and do_no_page ----------

  /** The entry put_page writes once the table exists. */
  lemma InstallPage(m: Mem, owned: set<nat>, d: nat, i: nat, f: nat)
    requires Inv(m, owned) && 16 <= d < 1024 && i < 1024 && Pde(m, d).present && !Maps(m, d, i) && f in owned
    requires forall x | f * 1024 <= x < f * 1024 + 1024 :: Peek(m, x) == ZERO
    ensures var n := Poke(m, PteIndex(m, d, i), Grant(f));
            && Inv(n, owned - {f}) && OtherViews(m, n, d, i) && View(n, d, i) == View(m, d, i)
            && Maps(n, d, i) && Pte(n, d, i) == Grant(f)
            && (forall e, j | 16 <= e < 1024 && 0 <= j < 1024 && Maps(m, e, j) :: Pte(n, e, j) == Pte(m, e, j))
  {
    var n := Poke(m, PteIndex(m, d, i), Grant(f));
    PokeOthers(m, n, owned, d, i, Grant(f));
    OwnedUnnamed(m, owned, f);
    TableAlone(m, owned, d);
    forall g | 256 <= g < 4096
      ensures Count(n, g) == Count(m, g)
      ensures !Names(m, d, i, g)
    {
    }
    WroteKeeps(m, n, d, i, Grant(f), owned, owned - {f});
    assert View(n, d, i) == View(m, d, i) by {
      assert f != Pde(m, d).frame;
      forall o | 0 <= o < 1024
        ensures PageWords(n, f)[o] == ZERO
      {
        assert Peek(n, f * 1024 + o) == Peek(m, f * 1024 + o);
      }
      assert PageWords(n, f) == ZeroWords();
    }
  }

  /** The result of a handled fault at (d, i): a writable page of the task's own, nothing
      visible to anybody else changed. */
  ghost predicate Granted(m: Mem, n: Mem, d: nat, i: nat) {
    && SameImage(m, n)
    && Maps(n, d, i) && Pte(n, d, i).writable
    && (forall e | 0 <= e < 1024 && (e != d || Pde(m, d).present) :: Pde(n, e) == Pde(m, e))
    && (forall e, j | 16 <= e < 1024 && 0 <= j < 1024 && !(e == d && j == i) ::
          && Maps(n, e, j) == Maps(m, e, j) && View(n, e, j) == View(m, e, j)
          && (Maps(m, e, j) ==> Pte(n, e, j) == Pte(m, e, j)))
  }

  lemma PutOnTable(m: Mem, owned: set<nat>, f: nat, addr: nat)
    requires Inv(m, owned) && 0x400_0000 <= addr < 0x1_0000_0000 && f in owned
    requires var d, i := DirOf(addr), TabOf(addr); Pde(m, d).present && !Maps(m, d, i)
    requires forall x | f * 1024 <= x < f * 1024 + 1024 :: Peek(m, x) == ZERO
    ensures var (n, ok) := PutPage(m, f, addr);
            ok && Inv(n, owned - {f}) && Granted(m, n, DirOf(addr), TabOf(addr))
               && View(n, DirOf(addr), TabOf(addr)) == View(m, DirOf(addr), TabOf(addr))
  {
    InstallPage(m, owned, DirOf(addr), TabOf(addr), f);
  }

  lemma PutOnFreshTable(m: Mem, owned: set<nat>, f: nat, addr: nat)
    requires Inv(m, owned) && 0x400_0000 <= addr < 0x1_0000_0000 && f in owned
    requires !Pde(m, DirOf(addr)).present
    requires forall x | f * 1024 <= x < f * 1024 + 1024 :: Peek(m, x) == ZERO
    ensures var (n, ok) := PutPage(m, f, addr);
            if ok then Inv(n, owned - {f}) && Granted(m, n, DirOf(addr), TabOf(addr))
                       && View(n, DirOf(addr), TabOf(addr)) == View(m, DirOf(addr), TabOf(addr))
            else n == m
  {
    var d, i := DirOf(addr), TabOf(addr);
    var (m1, g) := GetFreePage(m);
    GetFreeEffect(m);
    if g != 0 {
      AllocateTable(m, owned, d);
      var m2 := Poke(m1, d, Grant(g));
      var n := InstallOnFresh(m, m2, owned, d, i, f, g);
      PutUnfolds(m, f, addr, m2, g, n);
    } else {
      PutFails(m, f, addr);
    }
  }

  ghost predicate PutIs(m: Mem, f: Frame, addr: nat, n: Mem, ok: bool) {
    PutPage(m, f, addr) == (n, ok)
  }

  lemma PutUnfolds(m: Mem, f: nat, addr: nat, m2: Mem, g: nat, n: Mem)
    requires f < 4096 && !Pde(m, DirOf(addr)).present && g == GetFreePage(m).1 && g != 0 && g < 4096
    requires m2 == Poke(GetFreePage(m).0, DirOf(addr), Grant(g)) && n == Poke(m2, g * 1024 + TabOf(addr), Grant(f))
    ensures PutIs(m, f, addr, n, true)
  {
  }

  lemma PutFails(m: Mem, f: nat, addr: nat)
    requires f < 4096 && !Pde(m, DirOf(addr)).present && GetFreePage(m).1 == 0
    ensures PutIs(m, f, addr, m, false)
  {
  }

  lemma InstallOnFresh(m: Mem, m2: Mem, owned: set<nat>, d: nat, i: nat, f: nat, g: nat) returns (n: Mem)
    requires Inv(m2, owned) && 16 <= d < 1024 && i < 1024 && f in owned && !Pde(m, d).present
    requires FreshTable(m, m2, d, g) && f != g
    requires forall x | f * 1024 <= x < f * 1024 + 1024 :: Peek(m, x) == ZERO
    ensures n == Poke(m2, g * 1024 + i, Grant(f))
    ensures Inv(n, owned - {f}) && Granted(m, n, d, i) && View(n, d, i) == View(m, d, i)
  {
    forall x | f * 1024 <= x < f * 1024 + 1024
      ensures Peek(m2, x) == ZERO
    {
      assert Peek(m2, x) == Peek(m, x);
    }
    assert !Maps(m, d, i);
    assert g * 1024 + i == PteIndex(m2, d, i);
    n := Poke(m2, PteIndex(m2, d, i), Grant(f));
    InstallPage(m2, owned, d, i, f);
    FreshThenInstalled(m, m2, n, d, i, g);
  }

  lemma FreshThenInstalled(m: Mem, m2: Mem, n: Mem, d: nat, i: nat, g: nat)
    requires 16 <= d < 1024 && i < 1024 && FreshTable(m, m2, d, g) && !Pde(m, d).present
    requires OtherViews(m2, n, d, i) && View(n, d, i) == View(m2, d, i)
    requires Maps(n, d, i) && Pte(n, d, i).writable
    requires forall e, j | 16 <= e < 1024 && 0 <= j < 1024 && Maps(m2, e, j) :: Pte(n, e, j) == Pte(m2, e, j)
    ensures Granted(m, n, d, i) && View(n, d, i) == View(m, d, i)
  {
  }

  /** A not-present fault maps a page of zeros, which is what the page read as before; it
      fails only for lack of memory. */
  lemma NoPageFault(m: Mem, owned: set<nat>, addr: nat)
    requires Inv(m, owned) && 0x400_0000 <= addr < 0x1_0000_0000 && !Maps(m, DirOf(addr), TabOf(addr))
    ensures var r := DoNoPage(m, addr);
            !r.Panic? && (r.Done? ==> Inv(r.value, owned) && Granted(m, r.value, DirOf(addr), TabOf(addr))
                                      && View(r.value, DirOf(addr), TabOf(addr)) == View(m, DirOf(addr), TabOf(addr)))
  {
    var d, i := DirOf(addr), TabOf(addr);
    var page := addr / 4096 * 4096;
    assert DirOf(page) == d && TabOf(page) == i;
    GetFreeEffect(m);
    var (m1, f) := GetFreePage(m);
    if f != 0 {
      TookKeeps(m, m1, f, owned);
      TookViews(m, m1, f, owned);
      assert Pde(m1, d) == Pde(m, d) by {
        assert Peek(m1, d) == Peek(m, d);
      }
      WithoutAdded(owned, f);
      if Pde(m1, d).present {
        PutOnTable(m1, owned + {f}, f, page);
      } else {
        PutOnFreshTable(m1, owned + {f}, f, page);
      }
      var (m2, ok) := PutPage(m1, f, page);
      if ok {
        TookGranted(m, m1, m2, d, i);
      } else {
        FreeOwned(m1, owned + {f}, f);
      }
    }
  }

  lemma TookGranted(m: Mem, m1: Mem, n: Mem, d: nat, i: nat)
    requires 16 <= d < 1024 && i < 1024 && SameTables(m, m1) && SameImage(m, m1)
    requires forall e, j | 16 <= e < 1024 && 0 <= j < 1024 ::
             Maps(m1, e, j) == Maps(m, e, j) && View(m1, e, j) == View(m, e, j)
    requires Granted(m1, n, d, i)
    ensures Granted(m, n, d, i)
  {
    forall e | 0 <= e < 1024 && (e != d || Pde(m, d).present)
      ensures Pde(n, e) == Pde(m, e)
    {
      assert Peek(m1, e) == Peek(m, e) && Peek(m1, d) == Peek(m, d);
    }
  }

  // ---------- un_wp_page ----------

  /** No directory entry changed. */
  ghost predicate SameDirectory(m: Mem, n: Mem) {
    forall e | 0 <= e < 1024 :: Pde(n, e) == Pde(m, e)
  }

  /** The words a task reads in page (d, i). */
  function Contents(m: Mem, d: nat, i: nat): (r: seq<Word>)
    ensures |r| == 1024
  {
    if Maps(m, d, i) then PageWords(m, Pte(m, d, i).frame) else ZeroWords()
  }

  /** The guard of un_wp_page: the page is already the task's own. */
  predicate Alone(m: Mem, d: nat, i: nat) {
    Pte(m, d, i).frame >= 256 && Count(m, Pte(m, d, i).frame) == 1
  }

  lemma UnprotectAlone(m: Mem, owned: set<nat>, d: nat, i: nat)
    requires Inv(m, owned) && 16 <= d < 1024 && i < 1024 && Maps(m, d, i) && Alone(m, d, i)
    ensures var n := Poke(m, PteIndex(m, d, i), ReadWrite(Pte(m, d, i)));
            && Inv(n, owned) && Wrote(m, n, d, i, ReadWrite(Pte(m, d, i))) && OtherViews(m, n, d, i)
            && Contents(n, d, i) == Contents(m, d, i)
  {
    var w := Pte(m, d, i);
    var rw := ReadWrite(w);
    var n := Poke(m, PteIndex(m, d, i), rw);
    PokeOthers(m, n, owned, d, i, rw);
    assert Names(m, d, i, w.frame);
    Exclusive(m, owned, d, i, w.frame);
    forall f | 256 <= f < 4096
      ensures Count(n, f) == Count(m, f)
    {
    }
    WroteKeeps(m, n, d, i, rw, owned, owned);
  }

  /** The page g, held by the kernel, takes its contents. */
  lemma FillOwned(m: Mem, n: Mem, owned: set<nat>, g: nat)
    requires Inv(m, owned) && g in owned && n.high == m.high && n.count == m.count
    requires forall x: nat | x < g * 1024 || g * 1024 + 1024 <= x :: Peek(n, x) == Peek(m, x)
    ensures Inv(n, owned) && SameTables(m, n) && SameViews(m, n)
  {
    OwnedUnnamed(m, owned, g);
    forall d | 16 <= d < 1024 && Pde(m, d).present
      ensures Pde(m, d).frame != g
    {
      assert Names(m, d, 1024, Pde(m, d).frame);
    }
    forall d | 0 <= d < 1024
      ensures Pde(n, d) == Pde(m, d)
    {
      assert Peek(n, d) == Peek(m, d);
    }
    forall f
      ensures Count(n, f) == Count(m, f)
    {
    }
    SameTablesKeep(m, n, owned, owned);
    forall d, i | 16 <= d < 1024 && 0 <= i < 1024
      ensures Maps(n, d, i) == Maps(m, d, i) && View(n, d, i) == View(m, d, i)
    {
      if Maps(m, d, i) {
        assert Names(m, d, i, Pte(m, d, i).frame);
        assert PageWords(n, Pte(m, d, i).frame) == PageWords(m, Pte(m, d, i).frame);
      }
      KeepView(m, n, d, i);
    }
  }

  /** Memory once entry (d, i) names frame g instead of its old one. */
  function Moved(m: Mem, d: nat, i: nat, g: Frame): Mem {
    var e := Pte(m, d, i);
    var c := if e.frame >= 256 then SetCount(m, e.frame, (Count(m, e.frame) + 255) % 256) else m;
    Poke(c, PteIndex(m, d, i), Grant(g))
  }

  /** Entry (d, i) moves from a shared or image frame to the page g. */
  lemma MoveTo(m: Mem, owned: set<nat>, d: nat, i: nat, g: nat)
    requires Inv(m, owned) && 16 <= d < 1024 && i < 1024 && Maps(m, d, i) && !Alone(m, d, i) && g in owned
    ensures var n := Moved(m, d, i, g);
            && Inv(n, owned - {g}) && Wrote(m, n, d, i, Grant(g)) && OtherViews(m, n, d, i)
            && PageWords(n, g) == PageWords(m, g)
  {
    var e := Pte(m, d, i);
    var n := Moved(m, d, i, g);
    assert n.ram == Poke(m, PteIndex(m, d, i), Grant(g)).ram;
    PokeOthers(m, n, owned, d, i, Grant(g));
    OwnedUnnamed(m, owned, g);
    assert Names(m, d, i, e.frame);
    if e.frame >= 256 {
      assert (d, i) in Refs(m, e.frame);
      assert |Refs(m, e.frame)| > 0;
      NobodyWrites(m, owned, d, i);
    }
    TableAlone(m, owned, d);
    assert PageWords(n, g) == PageWords(m, g);
    MovedCounts(m, d, i, g);
    MoveAccounts(m, n, owned, d, i, g);
    WroteKeeps(m, n, d, i, Grant(g), owned, owned - {g});
  }

  lemma MovedCounts(m: Mem, d: nat, i: nat, g: Frame)
    requires Pte(m, d, i).frame >= 256 ==> Pte(m, d, i).frame < 4096 && Count(m, Pte(m, d, i).frame) > 0
    ensures forall f | 256 <= f < 4096 :: Count(Moved(m, d, i, g), f) == Count(m, f) - Bit(f == Pte(m, d, i).frame)
  {
  }

  lemma MoveAccounts(m: Mem, n: Mem, owned: set<nat>, d: nat, i: nat, g: nat)
    requires Inv(m, owned) && 16 <= d < 1024 && i < 1024 && Maps(m, d, i) && g in owned
    requires Pte(m, d, i).frame >= 256 ==> Count(m, Pte(m, d, i).frame) >= 2 && Pte(m, d, i).frame !in owned
    requires forall f | 256 <= f < 4096 :: Count(n, f) == Count(m, f) - Bit(f == Pte(m, d, i).frame)
    ensures Accounts(m, n, d, i, Grant(g), owned, owned - {g})
    ensures forall f | f in owned :: Count(n, f) == 1
  {
    forall f
      ensures Names(m, d, i, f) == (f == Pte(m, d, i).frame)
    {
    }
  }

  /** The new page, filled from the old one or left zero. */
  function NewPage(m: Mem, d: nat, i: nat, copies: bool): Mem {
    var (m1, g) := GetFreePage(m);
    if copies && Pte(m, d, i).frame < 4096 then m1.(ram := CopyPage(m1.ram, Pte(m, d, i).frame, g)) else m1
  }

  lemma NewPageEffect(m: Mem, d: nat, i: nat, copies: bool)
    requires Pte(m, d, i).frame != GetFreePage(m).1 && GetFreePage(m).1 != 0
    ensures var m1, m2, g := GetFreePage(m).0, NewPage(m, d, i, copies), GetFreePage(m).1;
            && m2.high == m1.high && m2.count == m1.count
            && (forall x: nat | x < g * 1024 || g * 1024 + 1024 <= x :: Peek(m2, x) == Peek(m1, x))
            && (Pte(m, d, i).frame < 4096 ==> PageWords(m2, g)
                                              == if copies then PageWords(m, Pte(m, d, i).frame) else ZeroWords())
  {
    GetFreeEffect(m);
    var f: nat := Pte(m, d, i).frame;
    var (m1, g) := GetFreePage(m);
    var m2 := NewPage(m, d, i, copies);
    forall o | 0 <= o < 1024
      ensures PageWords(m1, f)[o] == PageWords(m, f)[o]
      ensures PageWords(m1, g)[o] == ZERO
    {
      assert Peek(m1, f * 1024 + o) == Peek(m, f * 1024 + o);
      assert Peek(m1, g * 1024 + o) == ZERO;
    }
    if f < 4096 {
      assert PageWords(m2, g) == if copies then PageWords(m, f) else ZeroWords();
    }
  }

  lemma PrepareNewPage(m: Mem, owned: set<nat>, d: nat, i: nat, copies: bool)
    requires Inv(m, owned) && 16 <= d < 1024 && i < 1024 && Maps(m, d, i) && GetFreePage(m).1 != 0
    ensures var m2, g := NewPage(m, d, i, copies), GetFreePage(m).1;
            && 256 <= g < 4096 && Inv(m2, owned + {g}) && SameTables(m, m2) && SameViews(m, m2)
            && g !in owned && Count(m2, Pte(m, d, i).frame) == Count(m, Pte(m, d, i).frame)
            && PageWords(m2, g) == if copies then PageWords(m, Pte(m, d, i).frame) else ZeroWords()
  {
    GetFreeEffect(m);
    var (m1, g) := GetFreePage(m);
    TookKeeps(m, m1, g, owned);
    assert Pte(m, d, i).frame != g && Pte(m, d, i).frame < 4096 by {
      assert Names(m, d, i, Pte(m, d, i).frame);
    }
    NewPageEffect(m, d, i, copies);
    TookViews(m, m1, g, owned);
    FillOwned(m1, NewPage(m, d, i, copies), owned + {g}, g);
    ComposeSame(m, m1, NewPage(m, d, i, copies));
  }

  lemma ComposeSame(m: Mem, m1: Mem, m2: Mem)
    requires SameTables(m, m1) && SameTables(m1, m2) && SameImage(m, m1) && SameViews(m1, m2)
    requires forall e, j | 16 <= e < 1024 && 0 <= j < 1024 ::
             Maps(m1, e, j) == Maps(m, e, j) && View(m1, e, j) == View(m, e, j)
    ensures SameTables(m, m2) && SameViews(m, m2)
  {
    SameNames(m, m1);
  }

  lemma UnprotectShared(m: Mem, owned: set<nat>, d: nat, i: nat, copies: bool)
    requires Inv(m, owned) && 16 <= d < 1024 && i < 1024 && Maps(m, d, i) && !Alone(m, d, i)
    ensures var r := UnWpPage(m, PteIndex(m, d, i), copies);
            && !r.Panic?
            && (r.Done? ==> && Inv(r.value, owned) && Granted(m, r.value, d, i) && Pte(r.value, d, i).frame >= 256
                            && SameDirectory(m, r.value)
                            && Contents(r.value, d, i) == if copies then Contents(m, d, i) else ZeroWords())
  {
    var g := GetFreePage(m).1;
    if g != 0 {
      PrepareNewPage(m, owned, d, i, copies);
      var m2 := NewPage(m, d, i, copies);
      TookSameEntry(m, m2, d, i);
      var n := Moved(m2, d, i, g);
      UnWpIsMoved(m, d, i, copies);
      MoveTo(m2, owned + {g}, d, i, g);
      WithoutAdded(owned, g);
      MovedGranted(m, m2, n, d, i, g);
    }
  }

  lemma UnWpIsMoved(m: Mem, d: nat, i: nat, copies: bool)
    requires !Alone(m, d, i) && 0 < GetFreePage(m).1 < 4096
    requires var m2 := NewPage(m, d, i, copies);
             PteIndex(m2, d, i) == PteIndex(m, d, i) && Pte(m2, d, i) == Pte(m, d, i)
    ensures UnWpPage(m, PteIndex(m, d, i), copies) == Done(Moved(NewPage(m, d, i, copies), d, i, GetFreePage(m).1))
  {
  }

  lemma TookSameEntry(m: Mem, m2: Mem, d: nat, i: nat)
    requires 16 <= d < 1024 && i < 1024 && Maps(m, d, i) && SameTables(m, m2)
    ensures PteIndex(m2, d, i) == PteIndex(m, d, i) && Maps(m2, d, i) && Pte(m2, d, i) == Pte(m, d, i)
  {
    assert Peek(m2, d) == Peek(m, d);
  }

  lemma MovedGranted(m: Mem, m2: Mem, n: Mem, d: nat, i: nat, g: nat)
    requires 16 <= d < 1024 && i < 1024 && 256 <= g < 4096 && SameTables(m, m2) && SameViews(m, m2)
    requires Wrote(m2, n, d, i, Grant(g)) && OtherViews(m2, n, d, i)
    ensures Granted(m, n, d, i) && Pte(n, d, i) == Grant(g) && SameDirectory(m, n)
  {
    SameNames(m, m2);
    assert Pde(n, d) == Pde(m2, d);
  }

  /** un_wp_page on a protected page, in both versions: it fails only for lack of memory, it
      makes the page writable and the task's own, and nobody else's pages change. The
      documented version keeps the contents; the literal body replaces the contents of a
      page that was shared, or part of the image, by zeros. */
  lemma WriteProtectFault(m: Mem, owned: set<nat>, d: nat, i: nat, copies: bool)
    requires Inv(m, owned) && 16 <= d < 1024 && i < 1024 && Maps(m, d, i)
    ensures var r := UnWpPage(m, PteIndex(m, d, i), copies);
            && !r.Panic?
            && (r.Done? ==> && Inv(r.value, owned) && Granted(m, r.value, d, i) && Pte(r.value, d, i).frame >= 256
                            && SameDirectory(m, r.value)
                            && Contents(r.value, d, i)
                               == if copies || Alone(m, d, i) then Contents(m, d, i) else ZeroWords())
  {
    if Alone(m, d, i) {
      UnprotectAlone(m, owned, d, i);
    } else {
      UnprotectShared(m, owned, d, i, copies);
    }
  }

  ghost predicate UnWpIs(m: Mem, x: nat, copies: bool, r: Run<Mem>) {
    r == UnWpPage(m, x, copies)
  }

  /** The same, naming the result. */
  lemma ProtectFault(m: Mem, owned: set<nat>, d: nat, i: nat, x: nat, copies: bool) returns (r: Run<Mem>)
    requires Inv(m, owned) && 16 <= d < 1024 && i < 1024 && Maps(m, d, i) && x == PteIndex(m, d, i)
    ensures UnWpIs(m, x, copies, r) && !r.Panic?
    ensures r.Done? ==> && Inv(r.value, owned) && Granted(m, r.value, d, i) && Pte(r.value, d, i).frame >= 256
                        && SameDirectory(m, r.value)
                        && Contents(r.value, d, i) == if copies || Alone(m, d, i) then Contents(m, d, i)
                           else ZeroWords()
  {
    WriteProtectFault(m, owned, d, i, copies);
    r := UnWpPage(m, PteIndex(m, d, i), copies);
  }
}
