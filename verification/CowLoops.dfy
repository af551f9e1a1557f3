/** The loops of copy_page_tables and free_page_tables: sharing a whole address range on
    fork, tearing a range down, and taking a failed fork back. */
module CowLoops {
  import opened Paging
  import opened Memory
  import opened CowInvariant
  import opened CowSteps

  // ---------- free_page_tables ----------

  /** Directory entry d, and every entry of its table, is as it was. */
  ghost predicate SameDir(m: Mem, n: Mem, d: nat) {
    && Pde(n, d) == Pde(m, d)
    && (forall i | 0 <= i < 1024 ::
          && Maps(n, d, i) == Maps(m, d, i) && View(n, d, i) == View(m, d, i)
          && (Maps(m, d, i) ==> Pte(n, d, i) == Pte(m, d, i)))
  }

  /** The first k entries of table d are gone and nothing else changed. */
  ghost predicate Emptied(m: Mem, n: Mem, d: nat, k: nat) {
    && SameImage(m, n)
    && Pde(n, d) == Pde(m, d)
    && (forall e | 16 <= e < 1024 && e != d :: SameDir(m, n, e))
    && (forall i | 0 <= i < k :: !Maps(n, d, i))
  }

  lemma FreeNext(m: Mem, p: Mem, owned: set<nat>, d: nat, k: nat, x: nat) returns (n: Mem)
    requires Inv(p, owned) && 16 <= d < 1024 && Pde(m, d).present && k < 1024 && Emptied(m, p, d, k)
    requires x == PteIndex(m, d, k)
    ensures FreeEntry(p, x) == Done(n) && Inv(n, owned) && Emptied(m, n, d, k + 1)
  {
    assert PteIndex(p, d, k) == x;
    FreeEntryStep(p, owned, d, k);
    n := FreeEntry(p, x).value;
    EmptiedMore(m, p, n, d, k);
  }

  lemma {:induction false} FreeEntriesKeep(m: Mem, owned: set<nat>, d: nat, x: nat, k: nat) returns (n: Mem)
    requires Inv(m, owned) && 16 <= d < 1024 && Pde(m, d).present && k <= 1024 && x == PteIndex(m, d, 0)
    ensures FreesTo(m, x, k, n) && Inv(n, owned) && Emptied(m, n, d, k)
  {
    if k == 0 {
      n := m;
      forall e | 16 <= e < 1024
        ensures SameDir(m, m, e)
      {
      }
    } else {
      var p := FreeEntriesKeep(m, owned, d, x, k - 1);
      var j, y := k - 1, x + k - 1;
      n := FreeNext(m, p, owned, d, j, y);
      FreeEntriesOnce(m, p, x, k, j, y, n);
    }
  }

  ghost predicate FreesTo(m: Mem, x: nat, k: nat, n: Mem) {
    FreeEntries(m, x, k) == Done(n)
  }

  lemma FreeEntriesOnce(m: Mem, p: Mem, x: nat, k: nat, j: nat, y: nat, n: Mem)
    requires k == j + 1 && y == x + k - 1 && FreesTo(m, x, j, p) && FreeEntry(p, y) == Done(n)
    ensures FreesTo(m, x, k, n)
  {
  }

  lemma EmptiedMore(m: Mem, p: Mem, n: Mem, d: nat, k: nat)
    requires 16 <= d < 1024 && k < 1024 && Emptied(m, p, d, k) && Wrote(p, n, d, k, ZERO) && OtherViews(p, n, d, k)
    ensures Emptied(m, n, d, k + 1)
  {
    forall e | 16 <= e < 1024 && e != d
      ensures SameDir(m, n, e)
    {
      assert SameDir(m, p, e);
    }
  }

  /** Directory entries lo..hi-1 are gone and nothing else changed. */
  ghost predicate Cleared(m: Mem, n: Mem, lo: nat, hi: nat) {
    && SameImage(m, n)
    && (forall e | 16 <= e < 1024 && !(lo <= e < hi) :: SameDir(m, n, e))
    && (forall e | lo <= e < hi :: !Pde(n, e).present)
  }

  lemma FreeDirKeeps(m: Mem, owned: set<nat>, d: nat)
    requires Inv(m, owned) && 16 <= d < 1024
    ensures FreeDir(m, d).Done?
    ensures var n := FreeDir(m, d).value; Inv(n, owned) && Cleared(m, n, d, d + 1)
  {
    if Pde(m, d).present {
      var p := FreeEntriesKeep(m, owned, d, Pde(m, d).frame * 1024, 1024);
      RemoveTable(p, owned, d);
      var n := Poke(FreePage(p, Pde(p, d).frame * 4096).value, d, ZERO);
      RemovedClears(m, p, n, d);
    } else {
      forall e | 16 <= e < 1024
        ensures SameDir(m, m, e)
      {
      }
    }
  }

  lemma RemovedClears(m: Mem, p: Mem, n: Mem, d: nat)
    requires 16 <= d < 1024 && Emptied(m, p, d, 1024) && SameViews(p, n) && Pde(n, d) == ZERO
    requires forall e | 0 <= e < 1024 && e != d :: Pde(n, e) == Pde(p, e)
    requires forall e, j | 16 <= e < 1024 && 0 <= j < 1024 && Maps(p, e, j) :: Pte(n, e, j) == Pte(p, e, j)
    ensures Cleared(m, n, d, d + 1)
  {
    forall e | 16 <= e < 1024 && e != d
      ensures SameDir(m, n, e)
    {
      assert SameDir(m, p, e);
    }
  }

  lemma ClearedCompose(m: Mem, p: Mem, n: Mem, lo: nat, mid: nat, hi: nat)
    requires lo <= mid <= hi <= 1024 && Cleared(m, p, lo, mid) && Cleared(p, n, mid, hi) && 16 <= lo
    ensures Cleared(m, n, lo, hi)
  {
    forall e | 16 <= e < 1024 && !(lo <= e < hi)
      ensures SameDir(m, n, e)
    {
      assert SameDir(m, p, e) && SameDir(p, n, e);
    }
    forall e | lo <= e < hi
      ensures !Pde(n, e).present
    {
      if e < mid {
        assert SameDir(p, n, e);
      }
    }
  }

  /** Tearing a range down never reaches the "Trying to free free page!" panic, keeps the
      invariant, leaves the range empty and touches nothing outside it. */
  lemma {:induction false} FreeDirsKeep(m: Mem, owned: set<nat>, d: nat, k: nat)
    requires Inv(m, owned) && 16 <= d && d + k <= 1024
    ensures FreeDirs(m, d, k).Done?
    ensures var n := FreeDirs(m, d, k).value; Inv(n, owned) && Cleared(m, n, d, d + k)
  {
    if k == 0 {
      forall e | 16 <= e < 1024
        ensures SameDir(m, m, e)
      {
      }
    } else {
      FreeDirsKeep(m, owned, d, k - 1);
      var p := FreeDirs(m, d, k - 1).value;
      FreeDirKeeps(p, owned, d + k - 1);
      ClearedCompose(m, p, FreeDir(p, d + k - 1).value, d, d + k - 1, d + k);
    }
  }

  /** A second teardown of an empty range does nothing: do_exit frees the code segment and
      then the data segment, which is the same range. */
  lemma {:induction false} FreeDirsIdle(m: Mem, d: nat, k: nat)
    requires forall e | d <= e < d + k :: !Pde(m, e).present
    ensures FreeDirs(m, d, k) == Done(m)
  {
    if k > 0 {
      FreeDirsIdle(m, d, k - 1);
    }
  }

  // ---------- copy_page_tables ----------

  /** Directory entry a maps what it mapped; entries may have become read-only. */
  ghost predicate ProtectedDir(m: Mem, n: Mem, a: nat) {
    && Pde(n, a) == Pde(m, a)
    && (forall i | 0 <= i < 1024 ::
          && Maps(n, a, i) == Maps(m, a, i) && View(n, a, i) == View(m, a, i)
          && (Maps(m, a, i) ==> Pte(n, a, i) == Pte(m, a, i) || Pte(n, a, i) == ReadOnly(Pte(m, a, i))))
  }

  lemma ProtectedTransitive(m: Mem, p: Mem, n: Mem, a: nat)
    requires ProtectedDir(m, p, a) && ProtectedDir(p, n, a)
    ensures ProtectedDir(m, n, a)
  {
  }

  /** Entry i of d, if it was mapped, is read-only in d and in e. */
  ghost predicate BothRead(m: Mem, n: Mem, d: nat, e: nat, i: nat) {
    Maps(m, d, i) ==> Pte(n, d, i) == ReadOnly(Pte(m, d, i)) && Pte(n, e, i) == ReadOnly(Pte(m, d, i))
  }

  /** Pages of entry e look like the first k pages of entry d did; nothing else looks different. */
  ghost predicate CopiedEntries(m: Mem, n: Mem, d: nat, e: nat, k: nat) {
    && SameImage(m, n)
    && Pde(n, e) == Pde(m, e)
    && (forall a | 16 <= a < 1024 && a != e :: ProtectedDir(m, n, a))
    && (forall i | 0 <= i < k :: Maps(n, e, i) == Maps(m, d, i) && View(n, e, i) == View(m, d, i))
    && (forall i | 0 <= i < k :: BothRead(m, n, d, e, i))
    && (forall i | k <= i < 1024 :: !Maps(n, e, i))
  }

  lemma SharedProtects(m: Mem, n: Mem, d: nat, e: nat, i: nat, a: nat)
    requires 16 <= a < 1024 && a != e && i < 1024 && Shared(m, n, d, e, i)
    ensures ProtectedDir(m, n, a)
  {
  }

  lemma CopiedMore(m: Mem, p: Mem, n: Mem, d: nat, e: nat, k: nat)
    requires 16 <= d < 1024 && 16 <= e < 1024 && d != e && k < 1024
    requires CopiedEntries(m, p, d, e, k) && Maps(p, d, k) && Shared(p, n, d, e, k) && Pde(m, e).present
    ensures CopiedEntries(m, n, d, e, k + 1)
  {
    assert ProtectedDir(m, p, d);
    forall a | 16 <= a < 1024 && a != e
      ensures ProtectedDir(m, n, a)
    {
      SharedProtects(p, n, d, e, k, a);
      ProtectedTransitive(m, p, n, a);
    }
    forall i | 0 <= i < k + 1
      ensures BothRead(m, n, d, e, i)
    {
      if i < k {
        assert BothRead(m, p, d, e, i);
        SharedElsewhere(p, n, d, e, k, i);
      }
    }
  }

  lemma SharedElsewhere(p: Mem, n: Mem, d: nat, e: nat, k: nat, i: nat)
    requires 16 <= d < 1024 && 16 <= e < 1024 && d != e && i < k < 1024 && Shared(p, n, d, e, k)
    ensures Maps(p, d, i) ==> Pte(n, d, i) == Pte(p, d, i)
    ensures Maps(p, e, i) ==> Pte(n, e, i) == Pte(p, e, i)
  {
  }

  lemma BothReadStays(m: Mem, p: Mem, n: Mem, d: nat, e: nat, i: nat)
    requires i < 1024 && BothRead(m, p, d, e, i) && ProtectedDir(p, n, d) && ProtectedDir(p, n, e)
    requires Maps(m, d, i) ==> Maps(p, d, i) && Maps(p, e, i)
    ensures BothRead(m, n, d, e, i)
  {
  }

  lemma BothReadEarlier(m: Mem, p: Mem, n: Mem, d: nat, e: nat, i: nat)
    requires i < 1024 && BothRead(p, n, d, e, i) && ProtectedDir(m, p, d)
    ensures BothRead(m, n, d, e, i)
  {
  }

  lemma CopyNext(m: Mem, p: Mem, owned: set<nat>, d: nat, e: nat, k: nat, x: nat, y: nat)
    requires 16 <= d < 1024 && 16 <= e < 1024 && d != e && d % 16 == e % 16 && k < 1024
    requires Inv(p, owned) && CopiedEntries(m, p, d, e, k) && Pde(m, d).present && Pde(m, e).present
    requires x == PteIndex(m, d, k) && y == PteIndex(m, e, k)
    ensures Inv(CopyEntry(p, x, y), owned) && CopiedEntries(m, CopyEntry(p, x, y), d, e, k + 1)
  {
    assert ProtectedDir(m, p, d);
    assert x == PteIndex(p, d, k) && y == PteIndex(p, e, k);
    if Maps(p, d, k) {
      ShareStep(p, owned, d, e, k);
      CopiedMore(m, p, CopyEntry(p, x, y), d, e, k);
    } else {
      CopiedSkip(m, p, d, e, k);
      assert CopyEntry(p, x, y) == p;
    }
  }

  lemma CopiedSkip(m: Mem, p: Mem, d: nat, e: nat, k: nat)
    requires 16 <= d < 1024 && d != e && k < 1024 && CopiedEntries(m, p, d, e, k) && !Maps(p, d, k)
    ensures CopiedEntries(m, p, d, e, k + 1)
  {
    assert ProtectedDir(m, p, d);
  }

  /** n is what k iterations of the inner loop make of m. */
  ghost predicate Iterated(m: Mem, x: nat, y: nat, k: nat, n: Mem) {
    n == CopyEntries(m, x, y, k)
  }

  lemma IterateOnce(m: Mem, x: nat, y: nat, k: nat, p: Mem, u: nat, v: nat)
    requires 0 < k && Iterated(m, x, y, k - 1, p) && u == x + k - 1 && v == y + k - 1
    ensures Iterated(m, x, y, k, CopyEntry(p, u, v))
  {
  }

  lemma {:induction false} CopyEntriesKeep(m: Mem, owned: set<nat>, d: nat, e: nat, x: nat, y: nat, k: nat)
    returns (n: Mem)
    requires Inv(m, owned) && 16 <= d < 1024 && 16 <= e < 1024 && d != e && d % 16 == e % 16 && k <= 1024
    requires Pde(m, d).present && Pde(m, e).present && x == PteIndex(m, d, 0) && y == PteIndex(m, e, 0)
    requires forall i | 0 <= i < 1024 :: !Maps(m, e, i)
    ensures Iterated(m, x, y, k, n) && Inv(n, owned) && CopiedEntries(m, n, d, e, k)
  {
    if k == 0 {
      n := m;
      forall a | 16 <= a < 1024
        ensures ProtectedDir(m, m, a)
      {
      }
    } else {
      var p := CopyEntriesKeep(m, owned, d, e, x, y, k - 1);
      var u, v := x + k - 1, y + k - 1;
      IterateOnce(m, x, y, k, p, u, v);
      CopyNext(m, p, owned, d, e, k - 1, u, v);
      n := CopyEntry(p, u, v);
    }
  }

  /** The same from the kernel image: the child sees image frame i at page i. */
  ghost predicate CopiedImage(m: Mem, n: Mem, e: nat, k: nat) {
    && SameImage(m, n)
    && Pde(n, e) == Pde(m, e)
    && (forall a | 16 <= a < 1024 && a != e :: ProtectedDir(m, n, a))
    && (forall i | 0 <= i < k :: Maps(n, e, i) && View(n, e, i) == Low(i))
    && (forall i | k <= i < 1024 :: !Maps(n, e, i))
  }

  lemma CopyImageNext(m: Mem, p: Mem, owned: set<nat>, e: nat, k: nat, x: nat, y: nat)
    requires 16 <= e < 1024 && k < 160 && Inv(p, owned) && CopiedImage(m, p, e, k) && Pde(m, e).present
    requires x == 1024 + k && y == PteIndex(m, e, k)
    ensures Inv(CopyEntry(p, x, y), owned) && CopiedImage(m, CopyEntry(p, x, y), e, k + 1)
  {
    var n := CopyEntry(p, x, y);
    assert y == PteIndex(p, e, k);
    ShareImageStep(p, owned, e, k);
    forall a | 16 <= a < 1024 && a != e
      ensures ProtectedDir(m, n, a)
    {
      assert ProtectedDir(p, n, a);
      ProtectedTransitive(m, p, n, a);
    }
  }

  lemma {:induction false} CopyImageKeep(m: Mem, owned: set<nat>, e: nat, y: nat, k: nat) returns (n: Mem)
    requires Inv(m, owned) && 16 <= e < 1024 && k <= 160 && Pde(m, e).present && y == PteIndex(m, e, 0)
    requires forall i | 0 <= i < 1024 :: !Maps(m, e, i)
    ensures Iterated(m, 1024, y, k, n) && Inv(n, owned) && CopiedImage(m, n, e, k)
  {
    if k == 0 {
      n := m;
      forall a | 16 <= a < 1024
        ensures ProtectedDir(m, m, a)
      {
      }
    } else {
      var p := CopyImageKeep(m, owned, e, y, k - 1);
      var u, v := 1024 + k - 1, y + k - 1;
      IterateOnce(m, 1024, y, k, p, u, v);
      CopyImageNext(m, p, owned, e, k - 1, u, v);
      n := CopyEntry(p, u, v);
    }
  }

  // ---------- directory entries ----------

  /** Outside directory entries lo..hi-1 every page is mapped and looks as before. */
  ghost predicate Forked(m: Mem, n: Mem, lo: nat, hi: nat) {
    && SameImage(m, n)
    && (forall a | 16 <= a < 1024 && !(lo <= a < hi) :: ProtectedDir(m, n, a))
  }

  /** Directory entry t of n shows what directory entry f of m showed. */
  ghost predicate CopyOf(m: Mem, n: Mem, f: nat, t: nat) {
    && Pde(n, t).present == Pde(m, f).present
    && (forall i | 0 <= i < 1024 ::
          Maps(n, t, i) == Maps(m, f, i) && View(n, t, i) == View(m, f, i) && BothRead(m, n, f, t, i))
  }

  /** Directory entry t of n shows the 640KB image. */
  ghost predicate ImageAt(n: Mem, t: nat) {
    && (forall i | 0 <= i < 160 :: Maps(n, t, i) && View(n, t, i) == Low(i))
    && (forall i | 160 <= i < 1024 :: !Maps(n, t, i))
  }

  ghost predicate CopyDirIs(m: Mem, f: nat, t: nat, nr: nat, r: Copy) {
    CopyDir(m, f, t, nr) == r
  }

  lemma CopyDirTook(m: Mem, f: nat, t: nat, nr: nat, x: nat, g: Frame, y: nat, n: Mem)
    requires !Pde(m, t).present && Pde(m, f).present && GetFreePage(m).1 == g != 0
    requires x == Pde(m, f).frame * 1024 && y == g * 1024
    requires Iterated(Poke(GetFreePage(m).0, t, Grant(g)), x, y, nr, n)
    ensures CopyDirIs(m, f, t, nr, Copied(n))
  {
  }

  lemma FreshForks(m: Mem, m2: Mem, n: Mem, t: nat, g: nat)
    requires 16 <= t < 1024 && FreshTable(m, m2, t, g) && SameImage(m2, n)
    requires forall a | 16 <= a < 1024 && a != t :: ProtectedDir(m2, n, a)
    ensures Forked(m, n, t, t + 1)
  {
    forall a | 16 <= a < 1024 && a != t
      ensures ProtectedDir(m, n, a)
    {
      assert ProtectedDir(m, m2, a);
      ProtectedTransitive(m, m2, n, a);
    }
  }

  lemma ForkedSelf(m: Mem, lo: nat, hi: nat)
    ensures Forked(m, m, lo, hi)
  {
    forall a | 16 <= a < 1024
      ensures ProtectedDir(m, m, a)
    {
    }
  }

  lemma CopyDirKeeps(m: Mem, owned: set<nat>, f: nat, t: nat) returns (r: Copy)
    requires Inv(m, owned) && 16 <= f < 1024 && 16 <= t < 1024 && f != t && f % 16 == t % 16 && !Pde(m, t).present
    ensures CopyDirIs(m, f, t, 1024, r) && !r.Exists? && Inv(r.mem, owned) && Forked(m, r.mem, t, t + 1)
    ensures if r.Copied? then CopyOf(m, r.mem, f, t) else r.mem == m
  {
    var (m1, g) := GetFreePage(m);
    if !Pde(m, f).present {
      r := Copied(m);
      ForkedSelf(m, t, t + 1);
    } else if g == 0 {
      GetFreeEffect(m);
      r := NoMemory(m);
      ForkedSelf(m, t, t + 1);
    } else {
      AllocateTable(m, owned, t);
      var m2 := Poke(m1, t, Grant(g));
      var x, y := PteIndex(m, f, 0), PteIndex(m2, t, 0);
      var n := CopyFresh(m, m2, owned, f, t, g, x, y);
      CopyDirTook(m, f, t, 1024, x, g, y, n);
      r := Copied(n);
    }
  }

  lemma CopyFresh(m: Mem, m2: Mem, owned: set<nat>, f: nat, t: nat, g: nat, x: nat, y: nat) returns (n: Mem)
    requires Inv(m2, owned) && 16 <= f < 1024 && 16 <= t < 1024 && f != t && f % 16 == t % 16
    requires FreshTable(m, m2, t, g) && Pde(m, f).present && !Pde(m, t).present
    requires x == PteIndex(m, f, 0) && y == PteIndex(m2, t, 0)
    ensures Iterated(m2, x, y, 1024, n)
    ensures Inv(n, owned) && Forked(m, n, t, t + 1) && CopyOf(m, n, f, t)
  {
    forall i | 0 <= i < 1024
      ensures !Maps(m2, t, i)
    {
      assert !Maps(m, t, i);
    }
    assert Pde(m2, f) == Pde(m, f);
    n := CopyEntriesKeep(m2, owned, f, t, x, y, 1024);
    FreshForks(m, m2, n, t, g);
    CopiedIsCopy(m, m2, n, f, t, g);
  }

  lemma CopiedIsCopy(m: Mem, m2: Mem, n: Mem, f: nat, t: nat, g: nat)
    requires 16 <= f < 1024 && 16 <= t < 1024 && f != t && Pde(m, f).present
    requires FreshTable(m, m2, t, g) && CopiedEntries(m2, n, f, t, 1024)
    ensures CopyOf(m, n, f, t)
  {
    forall i | 0 <= i < 1024
      ensures BothRead(m, n, f, t, i)
    {
      assert BothRead(m2, n, f, t, i);
    }
  }

  lemma CopyImageDirKeeps(m: Mem, owned: set<nat>, t: nat) returns (r: Copy)
    requires Inv(m, owned) && 16 <= t < 1024 && !Pde(m, t).present
    ensures CopyDirIs(m, 0, t, 160, r) && !r.Exists? && Inv(r.mem, owned) && Forked(m, r.mem, t, t + 1)
    ensures if r.Copied? then ImageAt(r.mem, t) else r.mem == m
  {
    var (m1, g) := GetFreePage(m);
    assert Pde(m, 0) == Grant(1);
    if g == 0 {
      GetFreeEffect(m);
      r := NoMemory(m);
      ForkedSelf(m, t, t + 1);
    } else {
      AllocateTable(m, owned, t);
      var m2 := Poke(m1, t, Grant(g));
      forall i | 0 <= i < 1024
        ensures !Maps(m2, t, i)
      {
        assert !Maps(m, t, i);
      }
      var y := PteIndex(m2, t, 0);
      var n := CopyImageKeep(m2, owned, t, y, 160);
      FreshForks(m, m2, n, t, g);
      CopyDirTook(m, 0, t, 160, 1024, g, y, n);
      r := Copied(n);
    }
  }

  // ---------- whole ranges ----------

  ghost predicate CopyDirsIs(m: Mem, f: nat, t: nat, k: nat, nr: nat, r: Copy) {
    CopyDirs(m, f, t, k, nr) == r
  }

  lemma CopyDirsStop(m: Mem, f: nat, t: nat, k: nat, nr: nat, r: Copy)
    requires 0 < k && CopyDirsIs(m, f, t, k - 1, nr, r) && !r.Copied?
    ensures CopyDirsIs(m, f, t, k, nr, r)
  {
  }

  lemma CopyDirsOnce(m: Mem, f: nat, t: nat, k: nat, nr: nat, p: Mem, u: nat, v: nat, r: Copy)
    requires 0 < k && CopyDirsIs(m, f, t, k - 1, nr, Copied(p)) && u == f + k - 1 && v == t + k - 1
    requires CopyDirIs(p, u, v, nr, r)
    ensures CopyDirsIs(m, f, t, k, nr, r)
  {
  }

  lemma ForkedMore(m: Mem, p: Mem, n: Mem, lo: nat, mid: nat, hi: nat)
    requires 16 <= lo <= mid <= hi <= 1024 && Forked(m, p, lo, mid) && Forked(p, n, mid, hi)
    ensures Forked(m, n, lo, hi)
  {
    forall a | 16 <= a < 1024 && !(lo <= a < hi)
      ensures ProtectedDir(m, n, a)
    {
      ProtectedTransitive(m, p, n, a);
    }
  }

  /** Directory entry e of n shows what the entry at the same place of the range from f showed. */
  ghost predicate CopyAt(m: Mem, n: Mem, f: nat, t: nat, e: nat) {
    t <= e && CopyOf(m, n, f + (e - t), e)
  }

  /** The range [t, t + k) may receive a copy of [f, f + k). */
  ghost predicate ForkRanges(m: Mem, f: nat, t: nat, k: nat) {
    && 16 <= f && 16 <= t && f + k <= 1024 && t + k <= 1024
    && (f + k <= t || t + k <= f)
    && f % 16 == t % 16
    && (forall e | t <= e < t + k :: !Pde(m, e).present)
  }

  /** copy_page_tables on a user range: never the "already exists" panic, whichever entry runs
      out of memory; the invariant holds, no existing page changes, and on success every page
      of the new range looks like its original. */
  lemma {:induction false} CopyDirsKeep(m: Mem, owned: set<nat>, f: nat, t: nat, k: nat) returns (r: Copy)
    requires Inv(m, owned) && ForkRanges(m, f, t, k)
    ensures CopyDirsIs(m, f, t, k, 1024, r) && !r.Exists? && Inv(r.mem, owned) && Forked(m, r.mem, t, t + k)
    ensures r.Copied? ==> forall e | t <= e < t + k :: CopyAt(m, r.mem, f, t, e)
  {
    if k == 0 {
      r := Copied(m);
      ForkedSelf(m, t, t);
    } else {
      var r1 := CopyDirsKeep(m, owned, f, t, k - 1);
      var p, u, v, w := r1.mem, f + k - 1, t + k - 1, t + k;
      if r1.Copied? {
        NextPair(m, p, f, t, k, u, v);
        r := CopyDirKeeps(p, owned, u, v);
        CopyDirsOnce(m, f, t, k, 1024, p, u, v, r);
        ForkedMore(m, p, r.mem, t, v, w);
        if r.Copied? {
          CopyOfMore(m, p, r.mem, f, t, k - 1, u, v);
        }
      } else {
        r := r1;
        CopyDirsStop(m, f, t, k, 1024, r);
        ForkedSelf(p, v, w);
        ForkedMore(m, p, p, t, v, w);
      }
    }
  }

  lemma NextPair(m: Mem, p: Mem, f: nat, t: nat, k: nat, u: nat, v: nat)
    requires 0 < k && ForkRanges(m, f, t, k) && u == f + k - 1 && v == t + k - 1 && Forked(m, p, t, v)
    ensures 16 <= u < 1024 && 16 <= v < 1024 && u != v && u % 16 == v % 16 && !Pde(p, v).present
  {
    SameResidue(f, t, k - 1);
    assert ProtectedDir(m, p, v);
  }

  lemma SameResidue(a: nat, b: nat, k: nat)
    requires a % 16 == b % 16
    ensures (a + k) % 16 == (b + k) % 16
  {
  }

  lemma CopyStays(m: Mem, p: Mem, n: Mem, f: nat, t: nat)
    requires CopyOf(m, p, f, t) && ProtectedDir(p, n, f) && ProtectedDir(p, n, t) && ProtectedDir(m, p, f)
    ensures CopyOf(m, n, f, t)
  {
    forall i | 0 <= i < 1024
      ensures Maps(n, t, i) == Maps(m, f, i) && View(n, t, i) == View(m, f, i) && BothRead(m, n, f, t, i)
    {
      BothReadStays(m, p, n, f, t, i);
    }
  }

  lemma CopyEarlier(m: Mem, p: Mem, n: Mem, f: nat, t: nat)
    requires ProtectedDir(m, p, f) && CopyOf(p, n, f, t)
    ensures CopyOf(m, n, f, t)
  {
    forall i | 0 <= i < 1024
      ensures BothRead(m, n, f, t, i)
    {
      BothReadEarlier(m, p, n, f, t, i);
    }
  }

  lemma CopyOfMore(m: Mem, p: Mem, n: Mem, f: nat, t: nat, k: nat, u: nat, v: nat)
    requires ForkRanges(m, f, t, k + 1) && u == f + k && v == t + k
    requires Forked(m, p, t, v) && Forked(p, n, v, v + 1) && CopyOf(p, n, u, v)
    requires forall e | t <= e < t + k :: CopyAt(m, p, f, t, e)
    ensures forall e | t <= e < t + k + 1 :: CopyAt(m, n, f, t, e)
  {
    assert ProtectedDir(m, p, u);
    forall e | t <= e < t + k + 1
      ensures CopyAt(m, n, f, t, e)
    {
      if e < t + k {
        assert CopyAt(m, p, f, t, e);
        assert ProtectedDir(p, n, e) && ProtectedDir(p, n, f + (e - t));
        CopyStays(m, p, n, f + (e - t), e);
      } else {
        assert f + (e - t) == u;
        CopyEarlier(m, p, n, u, v);
      }
    }
  }

  // ---------- undoing a fork ----------

  /** Every directory entry outside [t, t + k) as before up to protection, the range absent. */
  ghost predicate Undone(m: Mem, r: Mem, t: nat, k: nat) {
    && Forked(m, r, t, t + k)
    && (forall e | t <= e < t + k :: !Pde(r, e).present)
  }

  lemma UndoneRefs(m: Mem, r: Mem, t: nat, k: nat, f: nat)
    requires 16 <= t && t + k <= 1024
    requires Undone(m, r, t, k) && forall e | t <= e < t + k :: !Pde(m, e).present
    ensures Refs(r, f) == Refs(m, f)
  {
    forall d, i | 16 <= d < 1024 && 0 <= i <= 1024
      ensures Names(r, d, i, f) == Names(m, d, i, f)
    {
      if !(t <= d < t + k) {
        assert ProtectedDir(m, r, d);
        if i < 1024 {
          assert Maps(r, d, i) == Maps(m, d, i);
        }
      }
    }
  }

  lemma UndoneCounts(m: Mem, r: Mem, owned: set<nat>, t: nat, k: nat)
    requires Inv(m, owned) && Inv(r, owned) && 16 <= t && t + k <= 1024
    requires Undone(m, r, t, k) && forall e | t <= e < t + k :: !Pde(m, e).present
    ensures r.count == m.count
  {
    forall f | 256 <= f < 4096
      ensures Count(r, f) == Count(m, f)
    {
      UndoneRefs(m, r, t, k, f);
    }
    forall j | 0 <= j < 3840
      ensures r.count[j] == m.count[j]
    {
      assert Count(r, j + 256) == Count(m, j + 256);
    }
  }

  /** A fork, finished or failed at any directory entry, followed by free_page_tables on the
      new range: every reference count is what it was, the range is absent again, and all
      other pages are mapped and look as before; only R/W bits may have been cleared. */
  lemma UndoFork(m: Mem, n: Mem, owned: set<nat>, t: nat, k: nat)
    requires Inv(m, owned) && Inv(n, owned) && 16 <= t && t + k <= 1024
    requires Forked(m, n, t, t + k) && forall e | t <= e < t + k :: !Pde(m, e).present
    ensures FreeDirs(n, t, k).Done?
    ensures var r := FreeDirs(n, t, k).value; Inv(r, owned) && Undone(m, r, t, k) && r.count == m.count
  {
    FreeDirsKeep(n, owned, t, k);
    var r := FreeDirs(n, t, k).value;
    ClearedUndoes(m, n, r, t, k);
    UndoneCounts(m, r, owned, t, k);
  }

  lemma ClearedUndoes(m: Mem, n: Mem, r: Mem, t: nat, k: nat)
    requires 16 <= t && t + k <= 1024 && Forked(m, n, t, t + k) && Cleared(n, r, t, t + k)
    ensures Undone(m, r, t, k)
  {
    forall a | 16 <= a < 1024 && !(t <= a < t + k)
      ensures ProtectedDir(m, r, a)
    {
      assert ProtectedDir(m, n, a) && SameDir(n, r, a);
    }
  }
}
