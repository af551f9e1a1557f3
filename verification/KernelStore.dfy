/** Stores of the kernel to user memory (include/asm/segment.h). In kernel mode the processor
    writes through read-only entries, since boot/head.s leaves CR0.WP clear; only a page that is
    not present faults. verify_area is there to make up for that. */
module KernelStore {
  import opened Paging
  import opened Memory
  import opened CowInvariant
  import opened CowSteps
  import opened CowFaults
  import opened CowLoops
  import opened Kernel
  import opened KernelInvariant
  import opened KernelAccess
  import opened KernelRuns
  import opened VerifyArea

  /** The word at `off` of task n becomes w; a byte store is one whose w differs in one byte. */
  function KernelWrite(s: Sys, n: nat, off: nat, w: Word, copies: bool): Run<Sys> {
    var addr := Base(n) + off;
    var m :- if Maps(s.mem, DirOf(addr), TabOf(addr)) then Done(s.mem) else PageFault(s.mem, 2, addr, copies);
    Done(s.(mem := Poke(m, Pte(m, DirOf(addr), TabOf(addr)).frame * 1024 + off / 4 % 1024, w)))
  }

  /** The kernel image and the page directory keep their words, and every page but (d, i) its
      contents. */
  ghost predicate Undisturbed(m: Mem, n: Mem, d: nat, i: nat) {
    && (forall x | 0 <= x < 256 * 1024 :: Peek(n, x) == Peek(m, x))
    && (forall e, j | 16 <= e < 1024 && 0 <= j < 1024 && !(e == d && j == i) ::
          Maps(n, e, j) == Maps(m, e, j) && Contents(n, e, j) == Contents(m, e, j))
  }

  /** Somebody else's page is the same frame. */
  ghost predicate Elsewhere(m: Mem, d: nat, i: nat, e: nat, j: nat) {
    && 16 <= e < 1024 && j < 1024 && !(e == d && j == i)
    && Maps(m, e, j) && Pte(m, e, j).frame == Pte(m, d, i).frame
  }

  lemma SharedFrame(m: Mem, owned: set<nat>, d: nat, i: nat) returns (e: nat, j: nat)
    requires Inv(m, owned) && 16 <= d < 1024 && i < 1024 && Maps(m, d, i) && Pte(m, d, i).frame >= 256
             && !Alone(m, d, i)
    ensures Elsewhere(m, d, i, e, j)
  {
    var f := Pte(m, d, i).frame;
    assert Names(m, d, i, f);
    NobodyWrites(m, owned, d, i);
    assert (d, i) in Refs(m, f) && |Refs(m, f)| > 0;
    var others := Refs(m, f) - {(d, i)};
    assert |others| == |Refs(m, f)| - 1;
    e, j :| (e, j) in others;
    assert Names(m, e, j, f);
  }

  /** A frame of user memory holds no page table, so writing it keeps the invariant. */
  lemma WordKeeps(m: Mem, owned: set<nat>, d: nat, i: nat, o: nat, w: Word, x: nat)
    requires Inv(m, owned) && 16 <= d < 1024 && i < 1024 && o < 1024 && Maps(m, d, i) && Pte(m, d, i).frame >= 256
    requires x == Pte(m, d, i).frame * 1024 + o
    ensures Inv(Poke(m, x, w), owned) && SameTables(m, Poke(m, x, w)) && SameImage(m, Poke(m, x, w))
    ensures SameDirectory(m, Poke(m, x, w))
  {
    var f: nat := Pte(m, d, i).frame;
    assert Names(m, d, i, f);
    NobodyWrites(m, owned, d, i);
    StoreTables(m, Poke(m, x, w), owned, f, o, w);
  }

  lemma SameEntries(m: Mem, n: Mem, e: nat, j: nat)
    requires SameTables(m, n) && SameDirectory(m, n) && 16 <= e < 1024 && j < 1024
    ensures Maps(n, e, j) == Maps(m, e, j) && (Maps(m, e, j) ==> Pte(n, e, j) == Pte(m, e, j))
  {
  }

  lemma ElsewhereSees(m: Mem, n: Mem, d: nat, i: nat, o: nat, w: Word, x: nat, e: nat, j: nat)
    requires SameTables(m, n) && SameDirectory(m, n) && Elsewhere(m, d, i, e, j) && o < 1024
    requires Pte(m, d, i).frame < 4096 && x == Pte(m, d, i).frame * 1024 + o && n == Poke(m, x, w)
    ensures Contents(m, e, j)[o] == Peek(m, x) && Contents(n, e, j)[o] == w
  {
    SameEntries(m, n, e, j);
  }

  /** A kernel store to a mapped page disturbs nothing else if and only if it stores what was
      there or un_wp_page would find the page alone: what verify_area is for. */
  lemma WordDisturbs(m: Mem, owned: set<nat>, d: nat, i: nat, o: nat, w: Word, x: nat)
    requires Inv(m, owned) && 16 <= d < 1024 && i < 1024 && o < 1024 && Maps(m, d, i)
    requires x == Pte(m, d, i).frame * 1024 + o
    ensures Undisturbed(m, Poke(m, x, w), d, i) <==> Peek(m, x) == w || Alone(m, d, i)
  {
    var f: nat, n := Pte(m, d, i).frame, Poke(m, x, w);
    assert f < 4096;
    if Peek(m, x) == w {
      assert n.ram == m.ram;
    } else if f < 256 {
      assert x < 256 * 1024 && Peek(n, x) == w;
    } else {
      WordKeeps(m, owned, d, i, o, w, x);
      if Alone(m, d, i) {
        AloneUndisturbed(m, owned, d, i, o, w, x);
      } else {
        var e, j := SharedFrame(m, owned, d, i);
        ElsewhereSees(m, n, d, i, o, w, x, e, j);
      }
    }
  }

  lemma AloneUndisturbed(m: Mem, owned: set<nat>, d: nat, i: nat, o: nat, w: Word, x: nat)
    requires Inv(m, owned) && 16 <= d < 1024 && i < 1024 && o < 1024 && Maps(m, d, i) && Alone(m, d, i)
    requires x == Pte(m, d, i).frame * 1024 + o
    ensures Undisturbed(m, Poke(m, x, w), d, i)
  {
    var f: nat, n := Pte(m, d, i).frame, Poke(m, x, w);
    WordKeeps(m, owned, d, i, o, w, x);
    assert Names(m, d, i, f);
    Exclusive(m, owned, d, i, f);
    forall e, j | 16 <= e < 1024 && 0 <= j < 1024 && !(e == d && j == i)
      ensures Maps(n, e, j) == Maps(m, e, j) && Contents(n, e, j) == Contents(m, e, j)
    {
      SameEntries(m, n, e, j);
      if Maps(m, e, j) {
        assert Names(m, e, j, Pte(m, e, j).frame);
        PokeElsewhere(m, f, o, w, x, Pte(m, e, j).frame);
      }
    }
  }

  lemma WritesMapped(s: Sys, n: nat, off: nat, w: Word, copies: bool, d: nat, i: nat, o: nat, x: nat)
    requires d == DirOf(Base(n) + off) && i == TabOf(Base(n) + off) && o == off / 4 % 1024 && Maps(s.mem, d, i)
    requires x == Pte(s.mem, d, i).frame * 1024 + o
    ensures KernelWrite(s, n, off, w, copies) == Done(s.(mem := Poke(s.mem, x, w)))
  {
  }

  /** On a page that is writable or not there at all the kernel's store is the user's. */
  lemma AsUser(s: Sys, n: nat, off: nat, w: Word, copies: bool)
    requires var m, d, i := s.mem, DirOf(Base(n) + off), TabOf(Base(n) + off); Maps(m, d, i) ==> Pte(m, d, i).writable
    ensures KernelWrite(s, n, off, w, copies) == Store(s, n, off, w, copies)
  {
  }

  /** So whatever page it hits, as long as it is not one of the kernel image, the invariant of the
      whole system survives a kernel store; it is the contents that need verify_area. */
  lemma KernelWriteKeeps(s: Sys, n: nat, off: nat, w: Word, copies: bool) returns (r: Run<Sys>)
    requires SysInv(s) && 1 <= n && Alive(s, n) && off < s.limit
    requires var d, i := DirOf(Base(n) + off), TabOf(Base(n) + off); Maps(s.mem, d, i) ==> Pte(s.mem, d, i).frame >= 256
    ensures r == KernelWrite(s, n, off, w, copies) && !r.Panic? && (r.Done? ==> SysInv(r.value))
  {
    var d, i, o := DirOf(Base(n) + off), TabOf(Base(n) + off), off / 4 % 1024;
    Where(n, off, s.limit);
    if Maps(s.mem, d, i) {
      var x := Pte(s.mem, d, i).frame * 1024 + o;
      WritesMapped(s, n, off, w, copies, d, i, o, x);
      r := WordWritten(s, d, i, o, w, x);
    } else {
      AsUser(s, n, off, w, copies);
      r := StoreKeeps(s, n, off, w, copies);
    }
  }

  lemma WordWritten(s: Sys, d: nat, i: nat, o: nat, w: Word, x: nat) returns (r: Run<Sys>)
    requires SysInv(s) && 16 <= d < 1024 && i < 1024 && o < 1024 && Maps(s.mem, d, i) && Pte(s.mem, d, i).frame >= 256
    requires x == Pte(s.mem, d, i).frame * 1024 + o
    ensures r == Done(s.(mem := Poke(s.mem, x, w))) && SysInv(r.value)
  {
    WordKeeps(s.mem, Pages(s.task), d, i, o, w, x);
    r := Done(s.(mem := Poke(s.mem, x, w)));
    VerifiedConfined(s, r.value);
  }

  // ---------- without verify_area ----------

  lemma PlaceOf(n: nat, d: nat, i: nat, o: nat, off: nat)
    requires 1 <= n < 64 && n == d / 16 && i < 1024 && o < 1024 && off == d % 16 * 0x40_0000 + i * 4096 + o * 4
    ensures DirOf(Base(n) + off) == d && TabOf(Base(n) + off) == i && off / 4 % 1024 == o && off < 0x400_0000
  {
    assert Base(n) + off == d * 0x40_0000 + (i * 4096 + o * 4);
    assert (Base(n) + off) / 4096 == d * 1024 + i;
    assert off / 4 == (d % 16 * 1024 + i) * 1024 + o;
  }

  lemma SharedWord(m: Mem, owned: set<nat>, d: nat, e: nat, i: nat, o: nat, w: Word, x: nat)
    requires Inv(m, owned) && 16 <= d < 1024 && 16 <= e < 1024 && i < 1024 && o < 1024 && Maps(m, d, i) && Maps(m, e, i)
    requires Pte(m, e, i).frame == Pte(m, d, i).frame >= 256 && x == Pte(m, e, i).frame * 1024 + o
    ensures Contents(Poke(m, x, w), d, i) == Contents(m, d, i)[o := w]
  {
    WordKeeps(m, owned, e, i, o, w, x);
    SameEntries(m, Poke(m, x, w), d, i);
    PokeHere(m, Pte(m, e, i).frame, o, w, x);
  }

  /** After a fork, a kernel store to any page the child shares with its parent changes the
      parent's page as well, unless verify_area came first. */
  lemma SharedStoreLeaks(s: Sys, n: nat, c: nat, copies: bool, u: Sys, d: nat, i: nat, o: nat, w: Word, off: nat)
    returns (v: Sys)
    requires SysInv(s) && 1 <= n && StepsTo(s, EvFork(n), copies, u, Child(c))
    requires d / 16 == n && i < 1024 && o < 1024 && Maps(s.mem, d, i) && Pte(s.mem, d, i).frame >= 256
    requires off == d % 16 * 0x40_0000 + i * 4096 + o * 4
    ensures KernelWrite(u, c, off, w, copies) == Done(v) && Contents(v.mem, d, i) == Contents(s.mem, d, i)[o := w]
  {
    SharedSince(s, n, c, copies, u, d, i);
    v := LeakAt(u, c, copies, d, 16 * c + d % 16, i, o, w, off);
  }

  lemma SharedSince(s: Sys, n: nat, c: nat, copies: bool, u: Sys, d: nat, i: nat)
    requires SysInv(s) && 1 <= n && StepsTo(s, EvFork(n), copies, u, Child(c))
    requires d / 16 == n && i < 1024 && Maps(s.mem, d, i) && Pte(s.mem, d, i).frame >= 256
    ensures SysInv(u) && 1 <= c < 64 && 16 <= d < 1024 && Contents(u.mem, d, i) == Contents(s.mem, d, i)
    ensures var e := 16 * c + d % 16;
            Maps(u.mem, d, i) && Maps(u.mem, e, i) && Pte(u.mem, e, i).frame == Pte(u.mem, d, i).frame >= 256
  {
    ForkShares(s, n, c, copies, u, d, i);
    StepEffect(s, EvFork(n), copies, u, Child(c));
    ParentContents(s, u, n, c, d, i);
  }

  lemma LeakAt(u: Sys, c: nat, copies: bool, d: nat, e: nat, i: nat, o: nat, w: Word, off: nat) returns (v: Sys)
    requires SysInv(u) && 1 <= c < 64 && 16 <= d < 1024 && e == 16 * c + d % 16 && i < 1024 && o < 1024
    requires Maps(u.mem, d, i) && Maps(u.mem, e, i) && Pte(u.mem, e, i).frame == Pte(u.mem, d, i).frame >= 256
    requires off == d % 16 * 0x40_0000 + i * 4096 + o * 4
    ensures KernelWrite(u, c, off, w, copies) == Done(v) && Contents(v.mem, d, i) == Contents(u.mem, d, i)[o := w]
  {
    var x := Pte(u.mem, e, i).frame * 1024 + o;
    SameResidueOf(c, d, e);
    PlaceOf(c, e, i, o, off);
    WritesMapped(u, c, off, w, copies, e, i, o, x);
    SharedWord(u.mem, Pages(u.task), d, e, i, o, w, x);
    v := u.(mem := Poke(u.mem, x, w));
  }

  lemma SameResidueOf(c: nat, d: nat, e: nat)
    requires e == 16 * c + d % 16
    ensures e / 16 == c && e % 16 == d % 16
  {
  }

  lemma ParentContents(s: Sys, u: Sys, n: nat, c: nat, d: nat, i: nat)
    requires Forked(s.mem, u.mem, 16 * c, 16 * c + DirCount(s.limit)) && 0 < s.limit <= 0x400_0000
    requires 16 <= d < 1024 && d / 16 == n != c && i < 1024 && Maps(s.mem, d, i) && Pte(s.mem, d, i).frame >= 256
    ensures Contents(u.mem, d, i) == Contents(s.mem, d, i)
  {
    assert ProtectedDir(s.mem, u.mem, d);
    assert View(s.mem, d, i) == Private(Contents(s.mem, d, i));
    assert View(u.mem, d, i) == Private(Contents(u.mem, d, i));
  }

  // ---------- with verify_area ----------

  /** Every page with a byte in the area is writable if it is mapped. */
  ghost predicate AreaReady(m: Mem, n: nat, off: nat, size: nat) {
    forall q | 16384 <= q < 1048576 && InArea(Base(n), off, size, q) && Maps(m, q / 1024, q % 1024) ::
      Pte(m, q / 1024, q % 1024).writable
  }

  lemma VerifiedReady(m: Mem, u: Mem, n: nat, off: nat, size: nat, copies: bool)
    requires 1 <= n && 1 <= size && VerifiedAt(m, u, n, off, size, copies)
    ensures AreaReady(u, n, off, size)
  {
    forall q | 16384 <= q < 1048576 && InArea(Base(n), off, size, q) && Maps(u, q / 1024, q % 1024)
      ensures Pte(u, q / 1024, q % 1024).writable
    {
      ReadyAt(m, u, n, off, size, copies, q);
    }
  }

  lemma ReadyAt(m: Mem, u: Mem, n: nat, off: nat, size: nat, copies: bool, q: nat)
    requires 1 <= n && 1 <= size && VerifiedAt(m, u, n, off, size, copies) && InArea(Base(n), off, size, q)
    ensures Maps(u, q / 1024, q % 1024) ==> Pte(u, q / 1024, q % 1024).writable
  {
    var base, first, next := Base(n), (Base(n) + off) / 4096, (Base(n) + off) / 4096 + PageCount(off, size);
    AreaIs(base, off, size, q);
    SweptReady(m, u, first, next, copies, q);
  }

  lemma SweptReady(m: Mem, u: Mem, first: nat, next: nat, copies: bool, q: nat)
    requires Swept(m, u, first, next, copies) && first <= q < next
    ensures Maps(u, q / 1024, q % 1024) ==> Pte(u, q / 1024, q % 1024).writable
  {
    assert Ready(m, u, q);
  }

  lemma ByteReady(m: Mem, n: nat, off: nat, size: nat, a: nat)
    requires AreaReady(m, n, off, size) && off <= a < off + size && 1 <= n && Base(n) + a < 0x1_0000_0000
    ensures var d, i := DirOf(Base(n) + a), TabOf(Base(n) + a); Maps(m, d, i) ==> Pte(m, d, i).writable
  {
    var q := (Base(n) + a) / 4096;
    assert Base(n) + off <= Base(n) + a < Base(n) + off + size && (Base(n) + a) / 4096 == q;
    assert InArea(Base(n), off, size, q);
    assert q / 1024 == DirOf(Base(n) + a) && q % 1024 == TabOf(Base(n) + a);
  }

  /** After verify_area a kernel store into the area does exactly what a store of the task itself
      would: it never panics, keeps the invariant and changes one page of that task. */
  lemma VerifiedWrite(s: Sys, n: nat, off: nat, size: nat, copies: bool, u: Sys, a: nat, w: Word)
    returns (r: Run<Sys>)
    requires SysInv(s) && StepsTo(s, EvVerify(n, off, size), copies, u, Ok) && off <= a < off + size && a < u.limit
    ensures r == KernelWrite(u, n, a, w, copies) == Store(u, n, a, w, copies) && !r.Panic?
    ensures r.Done? ==> SysInv(r.value) && StoredAt(u.mem, r.value.mem, n, a, w, copies)
  {
    StepEffect(s, EvVerify(n, off, size), copies, u, Ok);
    VerifiedReady(s.mem, u.mem, n, off, size, copies);
    ByteReady(u.mem, n, off, size, a);
    AsUser(u, n, a, w, copies);
    r := StoreKeeps(u, n, a, w, copies);
  }
}
