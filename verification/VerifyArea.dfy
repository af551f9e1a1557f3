/** verify_area (kernel/fork.c): before the kernel writes to user memory it makes the pages
    writable, because the processor does not check protection in kernel mode. */
module VerifyArea {
  import opened Memory
  import opened CowInvariant
  import opened CowSteps
  import opened CowFaults
  import opened Kernel
  import opened KernelInvariant
  import opened KernelAccess

  /** The pages visited are exactly those that hold a byte of the area. */
  lemma Coverage(base: nat, addr: nat, size: nat, page: nat)
    requires base % 4096 == 0 && size >= 1
    ensures FirstPage(base, addr) / 4096 <= page < FirstPage(base, addr) / 4096 + PageCount(addr, size)
            <==> exists b :: base + addr <= b < base + addr + size && b / 4096 == page
  {
    AreaPages(base, addr, size);
    PagesBetween(base + addr, base + addr + size, page);
  }

  lemma PagesBetween(x: nat, y: nat, page: nat)
    requires x < y
    ensures x / 4096 <= page < (y - 1) / 4096 + 1 <==> exists b :: x <= b < y && b / 4096 == page
  {
    if x / 4096 <= page <= (y - 1) / 4096 {
      var b := if page == x / 4096 then x else page * 4096;
      assert x <= b < y && b / 4096 == page;
    }
  }

  /** The page at a linear address is mapped if it was, and then writable. */
  ghost predicate Ready(m: Mem, n: Mem, page: nat) {
    var d, i := page / 1024, page % 1024;
    Maps(n, d, i) == Maps(m, d, i) && (Maps(m, d, i) ==> Pte(n, d, i).writable)
  }

  /** It holds what un_wp_page leaves in it: zeros if the literal body had to replace it. */
  ghost predicate Holds(m: Mem, n: Mem, page: nat, copies: bool) {
    Contents(n, page / 1024, page % 1024) == Before(m, page / 1024, page % 1024, copies)
  }

  ghost predicate Untouched(m: Mem, n: Mem, page: nat) {
    var d, i := page / 1024, page % 1024;
    && Maps(n, d, i) == Maps(m, d, i) && View(n, d, i) == View(m, d, i) && Contents(n, d, i) == Contents(m, d, i)
    && (Maps(m, d, i) ==> Pte(n, d, i) == Pte(m, d, i))
  }

  /** un_wp_page would find the page as before. */
  ghost predicate Settled(m: Mem, n: Mem, page: nat) {
    Replaced(n, page / 1024, page % 1024) == Replaced(m, page / 1024, page % 1024)
  }

  /** The pages differ in their place within the 64MB of their tasks. */
  predicate Apart(p: nat, q: nat) {
    p % 16384 != q % 16384
  }

  lemma WriteVerifyOne(m: Mem, owned: set<nat>, addr: nat, page: nat, copies: bool) returns (r: Run<Mem>)
    requires Inv(m, owned) && 0x400_0000 <= addr < 0x1_0000_0000 && addr == page * 4096
    ensures r == WriteVerify(m, addr, copies) && !r.Panic?
    ensures r.Done? ==> && Inv(r.value, owned) && SameImage(m, r.value) && SameDirectory(m, r.value)
                        && Ready(m, r.value, page) && Holds(m, r.value, page, copies)
                        && (forall q | 16384 <= q < 1048576 && q != page :: Untouched(m, r.value, q))
                        && (forall q | 16384 <= q < 1048576 && Apart(page, q) :: Settled(m, r.value, q))
  {
    var d, i := DirOf(addr), TabOf(addr);
    assert d == page / 1024 && i == page % 1024;
    if Maps(m, d, i) && !Pte(m, d, i).writable {
      var x := PteIndex(m, d, i);
      r := ProtectFault(m, owned, d, i, x, copies);
      WriteVerifyFaults(m, addr, x, copies, r);
      if r.Done? {
        GrantedUntouched(m, r.value, d, i, page);
        GrantedSettled(m, r.value, owned, d, i, page);
      }
    } else {
      r := Done(m);
    }
  }

  lemma WriteVerifyFaults(m: Mem, addr: nat, x: nat, copies: bool, r: Run<Mem>)
    requires Maps(m, DirOf(addr), TabOf(addr)) && !Pte(m, DirOf(addr), TabOf(addr)).writable
    requires x == PteIndex(m, DirOf(addr), TabOf(addr)) && UnWpIs(m, x, copies, r)
    ensures r == WriteVerify(m, addr, copies)
  {
  }

  lemma GrantedUntouched(m: Mem, n: Mem, d: nat, i: nat, page: nat)
    requires Granted(m, n, d, i) && SameDirectory(m, n) && d == page / 1024 && i == page % 1024 && 16 <= d < 1024
    ensures forall q | 16384 <= q < 1048576 && q != page :: Untouched(m, n, q)
  {
    forall q | 16384 <= q < 1048576 && q != page
      ensures Untouched(m, n, q)
    {
      assert !(q / 1024 == d && q % 1024 == i);
      SameViewContents(m, n, q / 1024, q % 1024);
    }
  }

  lemma SameViewContents(m: Mem, n: Mem, d: nat, i: nat)
    requires SameImage(m, n) && SameDirectory(m, n) && Maps(n, d, i) == Maps(m, d, i) && View(n, d, i) == View(m, d, i)
    ensures Contents(n, d, i) == Contents(m, d, i)
  {
    if Maps(m, d, i) && Pte(m, d, i).frame < 256 {
      var f: nat := Pte(m, d, i).frame;
      forall o | 0 <= o < 1024
        ensures PageWords(n, f)[o] == PageWords(m, f)[o]
      {
        if f == 0 {
          assert Pde(n, o) == Pde(m, o);
        } else {
          assert 1024 <= f * 1024 + o < 256 * 1024;
        }
      }
      assert PageWords(n, f) == PageWords(m, f);
    }
  }

  /** Un-sharing one page leaves the count of a frame at another offset alone. */
  lemma OtherOffset(m: Mem, n: Mem, owned: set<nat>, d: nat, i: nat, e: nat, j: nat, f: nat)
    requires Inv(m, owned) && Inv(n, owned) && Granted(m, n, d, i) && SameDirectory(m, n) && Maps(m, d, i)
    requires 16 <= d < 1024 && i < 1024 && 16 <= e < 1024 && j < 1024 && !(e % 16 == d % 16 && j == i)
    requires Maps(m, e, j) && Pte(m, e, j).frame == f && f >= 256
    ensures Count(n, f) == Count(m, f)
  {
    assert Names(m, e, j, f) && Names(n, e, j, f);
    assert !Names(m, d, i, f) && !Names(n, d, i, f);
    forall a, b | 16 <= a < 1024 && 0 <= b <= 1024
      ensures Names(n, a, b, f) == Names(m, a, b, f)
    {
      assert Pde(n, a) == Pde(m, a);
      if b < 1024 && !(a == d && b == i) {
        assert Maps(n, a, b) == Maps(m, a, b);
      }
    }
    assert Refs(n, f) == Refs(m, f);
  }

  lemma GrantedSettled(m: Mem, n: Mem, owned: set<nat>, d: nat, i: nat, page: nat)
    requires Inv(m, owned) && Inv(n, owned) && Granted(m, n, d, i) && SameDirectory(m, n) && Maps(m, d, i)
    requires d == page / 1024 && i == page % 1024 && 16 <= d < 1024
    ensures forall q | 16384 <= q < 1048576 && Apart(page, q) :: Settled(m, n, q)
  {
    forall q | 16384 <= q < 1048576 && Apart(page, q)
      ensures Settled(m, n, q)
    {
      var e, j := q / 1024, q % 1024;
      DifferentOffset(page, q);
      if Maps(m, e, j) && Pte(m, e, j).frame >= 256 {
        OtherOffset(m, n, owned, d, i, e, j, Pte(m, e, j).frame);
      }
    }
  }

  lemma DifferentOffset(p: nat, q: nat)
    requires Apart(p, q)
    ensures !(p / 1024 % 16 == q / 1024 % 16 && p % 1024 == q % 1024)
  {
    PlaceIs(p);
    PlaceIs(q);
  }

  lemma PlaceIs(p: nat)
    ensures p % 16384 == p / 1024 % 16 * 1024 + p % 1024
  {
    var h := p / 1024;
    assert p == h * 1024 + p % 1024 && h == h / 16 * 16 + h % 16;
    assert p == h / 16 * 16384 + (h % 16 * 1024 + p % 1024);
  }

  lemma CloseApart(p: nat, q: nat)
    requires p < q < p + 16384
    ensures Apart(p, q) && Apart(q, p)
  {
  }

  ghost predicate VerifyPagesIs(m: Mem, start: nat, n: nat, copies: bool, r: Run<Mem>) {
    r == VerifyPages(m, start, n, copies)
  }

  lemma VerifyOnce(m: Mem, start: nat, n: nat, copies: bool, p: Mem, addr: nat, r: Run<Mem>)
    requires 0 < n && VerifyPagesIs(m, start, n - 1, copies, Done(p)) && addr == start + 4096 * (n - 1)
    requires r == WriteVerify(p, addr, copies)
    ensures VerifyPagesIs(m, start, n, copies, r)
  {
  }

  lemma VerifyStops(m: Mem, start: nat, n: nat, copies: bool, r: Run<Mem>)
    requires 0 < n && VerifyPagesIs(m, start, n - 1, copies, r) && !r.Done?
    ensures VerifyPagesIs(m, start, n, copies, r)
  {
  }

  /** What verify_area has done to the pages first..next-1 and to no others. Up to 64MB no page
      of the range has any say in what un_wp_page does to another. */
  ghost predicate Swept(m: Mem, n: Mem, first: nat, next: nat, copies: bool) {
    && SameImage(m, n) && SameDirectory(m, n)
    && (forall q | first <= q < next :: Ready(m, n, q) && (next <= first + 16384 ==> Holds(m, n, q, copies)))
    && (forall q | 16384 <= q < 1048576 && !(first <= q < next) :: Untouched(m, n, q))
    && (forall q | next <= q < first + 16384 && q < 1048576 :: Settled(m, n, q))
  }

  lemma {:induction false} Verified(m: Mem, owned: set<nat>, start: nat, first: nat, n: nat, copies: bool)
    returns (r: Run<Mem>)
    requires Inv(m, owned) && start == first * 4096 && 16384 <= first && first + n <= 1048576
    ensures VerifyPagesIs(m, start, n, copies, r) && !r.Panic?
    ensures r.Done? ==> Inv(r.value, owned) && Swept(m, r.value, first, first + n, copies)
  {
    if n == 0 {
      r := Done(m);
    } else {
      var r1 := Verified(m, owned, start, first, n - 1, copies);
      if r1.Done? {
        var page := first + (n - 1);
        var addr := start + 4096 * (n - 1);
        r := WriteVerifyOne(r1.value, owned, addr, page, copies);
        VerifyOnce(m, start, n, copies, r1.value, addr, r);
        if r.Done? {
          SweptMore(m, r1.value, r.value, first, page, first + n, copies);
        }
      } else {
        r := r1;
        VerifyStops(m, start, n, copies, r);
      }
    }
  }

  lemma SweptMore(m: Mem, p: Mem, n: Mem, first: nat, page: nat, next: nat, copies: bool)
    requires 16384 <= first <= page < 1048576 && next == page + 1 && Swept(m, p, first, page, copies)
    requires SameImage(p, n) && SameDirectory(p, n) && Ready(p, n, page) && Holds(p, n, page, copies)
    requires forall q | 16384 <= q < 1048576 && q != page :: Untouched(p, n, q)
    requires forall q | 16384 <= q < 1048576 && Apart(page, q) :: Settled(p, n, q)
    ensures Swept(m, n, first, next, copies)
  {
    forall q | first <= q < next
      ensures Ready(m, n, q) && (next <= first + 16384 ==> Holds(m, n, q, copies))
    {
      if q < page {
        assert Ready(m, p, q) && Untouched(p, n, q);
      } else {
        assert Untouched(m, p, page);
        assert next <= first + 16384 ==> Settled(m, p, page);
      }
    }
    forall q | 16384 <= q < 1048576 && !(first <= q < next)
      ensures Untouched(m, n, q)
    {
      assert Untouched(m, p, q) && Untouched(p, n, q);
    }
    forall q | next <= q < first + 16384 && q < 1048576
      ensures Settled(m, n, q)
    {
      CloseApart(page, q);
      assert Settled(m, p, q) && Settled(p, n, q);
    }
  }

  /** The page holds a byte of the area. */
  ghost predicate InArea(base: nat, addr: nat, size: nat, page: nat) {
    exists b :: base + addr <= b < base + addr + size && b / 4096 == page
  }

  lemma AreaIs(base: nat, addr: nat, size: nat, page: nat)
    requires base % 4096 == 0 && size >= 1
    ensures var first := (base + addr) / 4096;
            InArea(base, addr, size, page) <==> first <= page < first + PageCount(addr, size)
  {
    AreaPages(base, addr, size);
    Coverage(base, addr, size, page);
  }

  /** verify_area on an area: every mapped page that holds a byte of it is writable afterwards,
      hence the task's own; no other page changes in any way. In an area of up to 64MB each of
      those pages keeps its contents if and only if un_wp_page copies, or need not replace the
      page, or the page is all zeros. It fails only for lack of memory. */
  lemma AreaVerified(m: Mem, owned: set<nat>, base: nat, addr: nat, size: nat, copies: bool) returns (r: Run<Mem>)
    requires Inv(m, owned) && base % 4096 == 0 && 0x400_0000 <= base && 1 <= size && base + addr + size <= 0x1_0000_0000
    ensures VerifyPagesIs(m, FirstPage(base, addr), PageCount(addr, size), copies, r) && !r.Panic?
    ensures r.Done? ==> Inv(r.value, owned) && SameImage(m, r.value)
    ensures r.Done? ==> forall q | 16384 <= q < 1048576 ::
                          if InArea(base, addr, size, q) then Ready(m, r.value, q) else Untouched(m, r.value, q)
    ensures r.Done? && PageCount(addr, size) <= 16384 ==>
              forall q | 16384 <= q < 1048576 && InArea(base, addr, size, q) ::
                Holds(m, r.value, q, copies) && Kept(m, r.value, q, copies)
  {
    var start, n := FirstPage(base, addr), PageCount(addr, size);
    var first := start / 4096;
    AreaPages(base, addr, size);
    r := Verified(m, owned, start, first, n, copies);
    forall q | 16384 <= q < 1048576
      ensures InArea(base, addr, size, q) <==> first <= q < first + n
    {
      Coverage(base, addr, size, q);
    }
    if r.Done? && n <= 16384 {
      forall q | first <= q < first + n
        ensures Holds(m, r.value, q, copies) && Kept(m, r.value, q, copies)
      {
        assert Holds(m, r.value, q, copies);
      }
    }
  }

  /** The state after verify_area on behalf of task n. */
  ghost predicate VerifiedAt(m: Mem, u: Mem, n: nat, off: nat, size: nat, copies: bool) {
    var first := (Base(n) + off) / 4096;
    Swept(m, u, first, first + PageCount(off, size), copies)
  }

  lemma VerifyKeeps(s: Sys, n: nat, off: nat, size: nat, copies: bool) returns (r: Run<Sys>)
    requires SysInv(s) && 1 <= n && Alive(s, n) && 1 <= size && Base(n) + off + size <= 0x1_0000_0000
    ensures r == Verify(s, n, off, size, copies) && !r.Panic?
    ensures r.Done? ==> && SysInv(r.value) && r.value == s.(mem := r.value.mem)
                        && VerifiedAt(s.mem, r.value.mem, n, off, size, copies)
  {
    var base, start, k := Base(n), FirstPage(Base(n), off), PageCount(off, size);
    AreaPages(base, off, size);
    var q := Verified(s.mem, Pages(s.task), start, start / 4096, k, copies);
    r := VerifyUnfolds(s, n, off, size, copies, q);
    if r.Done? {
      VerifiedConfined(s, r.value);
    }
  }

  lemma VerifyUnfolds(s: Sys, n: nat, off: nat, size: nat, copies: bool, q: Run<Mem>) returns (r: Run<Sys>)
    requires VerifyPagesIs(s.mem, FirstPage(Base(n), off), PageCount(off, size), copies, q)
    ensures r == Verify(s, n, off, size, copies) && (r.Panic? <==> q.Panic?) && (r.Oom? <==> q.Oom?)
    ensures r.Done? ==> r.value == s.(mem := q.value)
  {
    r := Verify(s, n, off, size, copies);
  }

  lemma VerifiedConfined(s: Sys, u: Sys)
    requires Confined(s) && SameDirectory(s.mem, u.mem) && u == s.(mem := u.mem)
    ensures Confined(u)
  {
    forall d | 16 <= d < 1024 && Pde(u.mem, d).present
      ensures Alive(u, d / 16) && d % 16 < DirCount(u.limit)
    {
      assert Alive(s, d / 16);
    }
  }

  /** Exactly when the page keeps its contents. */
  ghost predicate Kept(m: Mem, n: Mem, page: nat, copies: bool) {
    var d, i := page / 1024, page % 1024;
    Contents(n, d, i) == Contents(m, d, i) <==> copies || !Replaced(m, d, i) || Contents(m, d, i) == ZeroWords()
  }

  lemma AreaPages(base: nat, addr: nat, size: nat)
    requires base % 4096 == 0 && size >= 1
    ensures FirstPage(base, addr) % 4096 == 0 && FirstPage(base, addr) / 4096 == (base + addr) / 4096
    ensures FirstPage(base, addr) / 4096 + PageCount(addr, size) == (base + addr + size - 1) / 4096 + 1
  {
  }
}
