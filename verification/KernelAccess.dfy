/** User loads and stores, with the faults they take. */
module KernelAccess {
  import opened Paging
  import opened Memory
  import opened CowInvariant
  import opened CowSteps
  import opened CowFaults
  import opened Kernel
  import opened KernelInvariant

  /** After a successful access to page (d, i): it is mapped, and every other page is as before. */
  ghost predicate Served(m: Mem, n: Mem, d: nat, i: nat) {
    && SameImage(m, n)
    && Maps(n, d, i)
    && (forall e | 0 <= e < 1024 && (e != d || Pde(m, d).present) :: Pde(n, e) == Pde(m, e))
    && (forall e, j | 16 <= e < 1024 && 0 <= j < 1024 && !(e == d && j == i) ::
          && Maps(n, e, j) == Maps(m, e, j) && View(n, e, j) == View(m, e, j)
          && (Maps(m, e, j) ==> Pte(n, e, j) == Pte(m, e, j)))
  }

  /** The store finds a page that un_wp_page has to replace: shared, or part of the image. */
  predicate Replaced(m: Mem, d: nat, i: nat) {
    Maps(m, d, i) && !Pte(m, d, i).writable && !Alone(m, d, i)
  }

  lemma LoadAccess(m: Mem, owned: set<nat>, addr: nat, copies: bool)
    requires Inv(m, owned) && 0x400_0000 <= addr < 0x1_0000_0000
    ensures var r, d, i := Access(m, addr, false, copies), DirOf(addr), TabOf(addr);
            !r.Panic? && (r.Done? ==> Inv(r.value, owned) && Served(m, r.value, d, i)
                                      && View(r.value, d, i) == View(m, d, i))
  {
    if !Maps(m, DirOf(addr), TabOf(addr)) {
      NoPageFault(m, owned, addr);
    }
  }

  /** What the page holds when the store is repeated after its faults. */
  function Before(m: Mem, d: nat, i: nat, copies: bool): (r: seq<Word>)
    ensures |r| == 1024
  {
    if copies || !Replaced(m, d, i) then Contents(m, d, i) else ZeroWords()
  }

  /** The page is writable, and holds what the faults leave in it. */
  ghost predicate Writable(m: Mem, n: Mem, d: nat, i: nat, copies: bool) {
    Served(m, n, d, i) && Pte(n, d, i).writable && Contents(n, d, i) == Before(m, d, i, copies)
  }

  ghost predicate AccessIs(m: Mem, addr: nat, copies: bool, r: Run<Mem>) {
    r == Access(m, addr, true, copies)
  }

  lemma AccessProtected(m: Mem, addr: nat, x: nat, copies: bool, r: Run<Mem>)
    requires Maps(m, DirOf(addr), TabOf(addr)) && !Pte(m, DirOf(addr), TabOf(addr)).writable
    requires x == PteIndex(m, DirOf(addr), TabOf(addr)) && UnWpIs(m, x, copies, r)
    ensures AccessIs(m, addr, copies, r)
  {
  }

  lemma StoreAccess(m: Mem, owned: set<nat>, addr: nat, d: nat, i: nat, copies: bool) returns (r: Run<Mem>)
    requires Inv(m, owned) && 0x400_0000 <= addr < 0x1_0000_0000 && d == DirOf(addr) && i == TabOf(addr)
    ensures AccessIs(m, addr, copies, r) && !r.Panic?
    ensures r.Done? ==> Inv(r.value, owned) && Writable(m, r.value, d, i, copies)
  {
    if !Maps(m, d, i) {
      r := DoNoPage(m, addr);
      StoreUnmapped(m, owned, addr, d, i, copies);
    } else if !Pte(m, d, i).writable {
      var x := PteIndex(m, d, i);
      r := ProtectFault(m, owned, d, i, x, copies);
      AccessProtected(m, addr, x, copies, r);
      if r.Done? {
        GrantedWritable(m, r.value, d, i, copies);
      }
    } else {
      r := Done(m);
    }
  }

  lemma GrantedWritable(m: Mem, n: Mem, d: nat, i: nat, copies: bool)
    requires Maps(m, d, i) && !Pte(m, d, i).writable && Granted(m, n, d, i)
    requires Contents(n, d, i) == if copies || Alone(m, d, i) then Contents(m, d, i) else ZeroWords()
    ensures Writable(m, n, d, i, copies)
  {
  }

  lemma StoreUnmapped(m: Mem, owned: set<nat>, addr: nat, d: nat, i: nat, copies: bool)
    requires Inv(m, owned) && 0x400_0000 <= addr < 0x1_0000_0000 && d == DirOf(addr) && i == TabOf(addr)
             && !Maps(m, d, i)
    ensures var r := DoNoPage(m, addr);
            !r.Panic? && (r.Done? ==> Inv(r.value, owned) && Writable(m, r.value, d, i, copies))
  {
    NoPageFault(m, owned, addr);
    if DoNoPage(m, addr).Done? {
      MappedWritable(m, DoNoPage(m, addr).value, d, i, copies);
    }
  }

  /** A page of zeros was mapped: it reads as it did. */
  lemma MappedWritable(m: Mem, n: Mem, d: nat, i: nat, copies: bool)
    requires !Maps(m, d, i) && Granted(m, n, d, i) && View(n, d, i) == View(m, d, i)
    ensures Writable(m, n, d, i, copies)
  {
  }

  /** The store itself goes to a frame that only this entry names, so it reaches no page table
      and no page of another task. */
  lemma StoreWord(m: Mem, owned: set<nat>, d: nat, i: nat, o: nat, w: Word, x: nat)
    requires Inv(m, owned) && 16 <= d < 1024 && i < 1024 && o < 1024 && Maps(m, d, i) && Pte(m, d, i).writable
    requires x == Pte(m, d, i).frame * 1024 + o
    ensures Inv(Poke(m, x, w), owned) && SameTables(m, Poke(m, x, w)) && Served(m, Poke(m, x, w), d, i)
    ensures Pte(Poke(m, x, w), d, i) == Pte(m, d, i)
    ensures View(Poke(m, x, w), d, i) == Private(Contents(m, d, i)[o := w])
  {
    var f: nat := Pte(m, d, i).frame;
    var n := Poke(m, x, w);
    assert Names(m, d, i, f);
    Exclusive(m, owned, d, i, f);
    StoreTables(m, n, owned, f, o, w);
    forall e, j | 16 <= e < 1024 && 0 <= j < 1024 && !(e == d && j == i) && Maps(m, e, j)
      ensures PageWords(n, Pte(m, e, j).frame) == PageWords(m, Pte(m, e, j).frame)
    {
      assert Names(m, e, j, Pte(m, e, j).frame);
      PokeElsewhere(m, f, o, w, x, Pte(m, e, j).frame);
    }
    StoredViews(m, n, d, i);
    PokeHere(m, f, o, w, x);
  }

  lemma PokeHere(m: Mem, f: nat, o: nat, w: Word, x: nat)
    requires f < 4096 && o < 1024 && x == f * 1024 + o
    ensures PageWords(Poke(m, x, w), f) == PageWords(m, f)[o := w]
  {
  }

  lemma StoredViews(m: Mem, n: Mem, d: nat, i: nat)
    requires SameTables(m, n) && SameImage(m, n) && 16 <= d < 1024 && i < 1024 && Maps(m, d, i)
    requires forall e | 0 <= e < 1024 :: Pde(n, e) == Pde(m, e)
    requires forall e, j | 16 <= e < 1024 && 0 <= j < 1024 && !(e == d && j == i) && Maps(m, e, j) ::
               PageWords(n, Pte(m, e, j).frame) == PageWords(m, Pte(m, e, j).frame)
    ensures Served(m, n, d, i)
  {
  }

  lemma PokeElsewhere(m: Mem, f: nat, o: nat, w: Word, x: nat, g: nat)
    requires o < 1024 && x == f * 1024 + o && f != g
    ensures PageWords(Poke(m, x, w), g) == PageWords(m, g)
  {
  }

  lemma StoreTables(m: Mem, n: Mem, owned: set<nat>, f: nat, o: nat, w: Word)
    requires Inv(m, owned) && 256 <= f < 4096 && o < 1024 && n == Poke(m, f * 1024 + o, w)
    requires forall e | 16 <= e < 1024 :: !Names(m, e, 1024, f)
    ensures Inv(n, owned) && SameTables(m, n) && SameImage(m, n)
    ensures forall e | 0 <= e < 1024 :: Pde(n, e) == Pde(m, e)
  {
    forall e | 16 <= e < 1024 && Pde(m, e).present
      ensures Pde(m, e).frame != f
    {
      assert !Names(m, e, 1024, f);
    }
    forall e | 0 <= e < 1024
      ensures Pde(n, e) == Pde(m, e)
    {
    }
    forall g
      ensures Count(n, g) == Count(m, g)
    {
    }
    SameTablesKeep(m, n, owned, owned);
  }

  lemma Where(n: nat, off: nat, limit: nat)
    requires 1 <= n < 64 && off < limit <= 0x400_0000
    ensures var addr := Base(n) + off;
            && 0x400_0000 <= addr < 0x1_0000_0000
            && 16 * n <= DirOf(addr) < 16 * n + DirCount(limit) && DirOf(addr) == 16 * n + off / 0x40_0000
            && TabOf(addr) == off / 4096 % 1024
            && DirOf(addr) / 16 == n && DirOf(addr) % 16 < DirCount(limit)
  {
    var addr, k := Base(n) + off, off / 0x40_0000;
    assert addr / 0x40_0000 == 16 * n + k;
    assert k < 16 && k < DirCount(limit);
    assert addr / 4096 == n * 16384 + off / 4096;
    assert (n * 16384 + off / 4096) % 1024 == off / 4096 % 1024;
  }

  lemma AccessConfined(s: Sys, u: Sys, n: nat, d: nat, i: nat)
    requires SysInv(s) && Alive(s, n) && u.task == s.task && u.limit == s.limit
    requires d / 16 == n && d % 16 < DirCount(s.limit) && Served(s.mem, u.mem, d, i)
    ensures Confined(u)
  {
    forall e | 16 <= e < 1024 && Pde(u.mem, e).present
      ensures Alive(u, e / 16) && e % 16 < DirCount(u.limit)
    {
      assert Alive(s, e / 16);
    }
  }

  lemma LoadKeeps(s: Sys, n: nat, off: nat, copies: bool) returns (r: Run<(Sys, Word)>)
    requires SysInv(s) && 1 <= n && Alive(s, n) && off < s.limit
    ensures r == Load(s, n, off, copies) && !r.Panic?
    ensures r.Done? ==> && SysInv(r.value.0) && r.value.0 == s.(mem := r.value.0.mem)
                        && Loaded(s.mem, r.value.0.mem, n, off, r.value.1)
  {
    Where(n, off, s.limit);
    var addr := Base(n) + off;
    var d, i := DirOf(addr), TabOf(addr);
    LoadAccess(s.mem, Pages(s.task), addr, copies);
    var a := Access(s.mem, addr, false, copies);
    r := LoadUnfolds(s, n, off, copies, addr, a);
    if r.Done? {
      AccessConfined(s, r.value.0, n, d, i);
    }
  }

  lemma LoadUnfolds(s: Sys, n: nat, off: nat, copies: bool, addr: nat, a: Run<Mem>) returns (r: Run<(Sys, Word)>)
    requires addr == Base(n) + off && a == Access(s.mem, addr, false, copies)
    requires a.Done? ==> Maps(a.value, DirOf(addr), TabOf(addr))
    ensures r == Load(s, n, off, copies) && (r.Panic? <==> a.Panic?) && (r.Done? <==> a.Done?)
    ensures r.Done? ==> r.value.0 == s.(mem := a.value)
                        && r.value.1 == Contents(a.value, DirOf(addr), TabOf(addr))[off / 4 % 1024]
  {
    r := Load(s, n, off, copies);
  }

  /** The state after a load: the page is mapped, no page looks different, and w is the word of
      the page. */
  ghost predicate Loaded(m: Mem, u: Mem, n: nat, off: nat, w: Word) {
    var d, i := DirOf(Base(n) + off), TabOf(Base(n) + off);
    Served(m, u, d, i) && View(u, d, i) == View(m, d, i) && w == Contents(u, d, i)[off / 4 % 1024]
  }

  /** The state after a store: page (d, i) of the task holds the word, nothing else changed. */
  ghost predicate Stored(m: Mem, n: Mem, d: nat, i: nat, o: nat, w: Word, copies: bool) {
    && o < 1024 && Served(m, n, d, i) && Pte(n, d, i).writable
    && View(n, d, i) == Private(Before(m, d, i, copies)[o := w])
  }

  ghost predicate StoredAt(m: Mem, u: Mem, n: nat, off: nat, w: Word, copies: bool) {
    Stored(m, u, DirOf(Base(n) + off), TabOf(Base(n) + off), off / 4 % 1024, w, copies)
  }

  lemma StoreMemory(m: Mem, owned: set<nat>, addr: nat, d: nat, i: nat, o: nat, w: Word, copies: bool)
    returns (r: Run<Mem>, x: nat, n: Mem)
    requires Inv(m, owned) && 0x400_0000 <= addr < 0x1_0000_0000 && d == DirOf(addr) && i == TabOf(addr) && o < 1024
    ensures AccessIs(m, addr, copies, r) && !r.Panic?
    ensures r.Done? ==> x == Pte(r.value, d, i).frame * 1024 + o && n == Poke(r.value, x, w)
    ensures r.Done? ==> Inv(n, owned) && Stored(m, n, d, i, o, w, copies)
  {
    r := StoreAccess(m, owned, addr, d, i, copies);
    x, n := 0, m;
    if r.Done? {
      x := Pte(r.value, d, i).frame * 1024 + o;
      StoreWord(r.value, owned, d, i, o, w, x);
      n := Poke(r.value, x, w);
      ServedStored(m, r.value, n, d, i, o, w, copies);
    }
  }

  lemma ServedStored(m: Mem, p: Mem, n: Mem, d: nat, i: nat, o: nat, w: Word, copies: bool)
    requires o < 1024 && Writable(m, p, d, i, copies) && Served(p, n, d, i) && Pte(n, d, i) == Pte(p, d, i)
    requires View(n, d, i) == Private(Contents(p, d, i)[o := w])
    ensures Stored(m, n, d, i, o, w, copies)
  {
  }

  ghost predicate StoreIs(s: Sys, n: nat, off: nat, w: Word, copies: bool, r: Run<Sys>) {
    r == Store(s, n, off, w, copies)
  }

  lemma StoreUnfolds(s: Sys, n: nat, off: nat, w: Word, copies: bool, addr: nat, r: Run<Mem>, x: nat)
    requires addr == Base(n) + off && AccessIs(s.mem, addr, copies, r)
    requires r.Done? ==> x == Pte(r.value, DirOf(addr), TabOf(addr)).frame * 1024 + off / 4 % 1024
    ensures StoreIs(s, n, off, w, copies, if r.Done? then Done(s.(mem := Poke(r.value, x, w))) else if r.Oom? then Oom
            else Panic)
  {
  }

  /** A store fails only for lack of memory; otherwise only that page of that task changes. */
  lemma StoreKeeps(s: Sys, n: nat, off: nat, w: Word, copies: bool) returns (r: Run<Sys>)
    requires SysInv(s) && 1 <= n && Alive(s, n) && off < s.limit
    ensures StoreIs(s, n, off, w, copies, r) && !r.Panic?
    ensures r.Done? ==> && SysInv(r.value) && r.value == s.(mem := r.value.mem)
                        && StoredAt(s.mem, r.value.mem, n, off, w, copies)
  {
    Where(n, off, s.limit);
    var addr, o := Base(n) + off, off / 4 % 1024;
    var d, i := DirOf(addr), TabOf(addr);
    var a, x, m := StoreMemory(s.mem, Pages(s.task), addr, d, i, o, w, copies);
    StoreUnfolds(s, n, off, w, copies, addr, a, x);
    if a.Done? {
      r := Done(s.(mem := m));
      AccessConfined(s, r.value, n, d, i);
    } else {
      r := Oom;
    }
  }
}
