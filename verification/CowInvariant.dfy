/** The invariant of the copy-on-write world: the page tables of tasks 1..63 (directory
    entries 16..1023) and the reference counts of the frames between LOW_MEM and
    HIGH_MEMORY. */
module CowInvariant {
  import opened Paging
  import opened Memory
  import opened Counting

  /** HIGH_MEMORY as a frame number. */
  function High(m: Mem): nat {
    m.high / 4096
  }

  /** Directory entries 0..3 and their tables as boot/head.s leaves them: the identity map. */
  ghost predicate KernelMap(m: Mem) {
    && (forall d | 0 <= d < 4 :: Pde(m, d) == Grant(d + 1))
    && (forall d | 4 <= d < 16 :: Pde(m, d) == ZERO)
    && (forall x | 1024 <= x < 5120 :: Peek(m, x) == Grant(x - 1024))
  }

  predicate Maps(m: Mem, d: nat, i: nat) {
    Pde(m, d).present && Pte(m, d, i).present
  }

  /** The reference (d, i) names frame f: for i < 1024 a present table entry, for i == 1024
      the directory entry itself, which uses f as its table. */
  predicate Names(m: Mem, d: nat, i: nat, f: nat) {
    && Pde(m, d).present
    && if i == 1024 then Pde(m, d).frame == f else Pte(m, d, i).present && Pte(m, d, i).frame == f
  }

  ghost function Refs(m: Mem, f: nat): (r: set<(nat, nat)>)
    ensures forall d, i :: (d, i) in r <==> 16 <= d < 1024 && 0 <= i <= 1024 && Names(m, d, i, f)
  {
    set d: nat, i: nat | 16 <= d < 1024 && 0 <= i <= 1024 && Names(m, d, i, f) :: (d, i)
  }

  ghost predicate TablesOk(m: Mem) {
    forall d | 16 <= d < 1024 && Pde(m, d).present ::
      256 <= Pde(m, d).frame < High(m) && Count(m, Pde(m, d).frame) == 1
  }

  ghost predicate EntriesOk(m: Mem) {
    forall d, i | 16 <= d < 1024 && 0 <= i < 1024 && Maps(m, d, i) ::
      && Pte(m, d, i).frame < High(m)
      && (Pte(m, d, i).writable ==> 256 <= Pte(m, d, i).frame && Count(m, Pte(m, d, i).frame) == 1)
  }

  /** Frames are shared only at one offset of the 64MB task regions. */
  ghost predicate SameOffset(m: Mem) {
    forall d, i, e, j, f | 16 <= d < 1024 && 16 <= e < 1024 && 0 <= i < 1024 && 0 <= j < 1024 && 256 <= f ::
      Names(m, d, i, f) && Names(m, e, j, f) ==> d % 16 == e % 16 && i == j
  }

  function Own(owned: set<nat>, f: nat): nat {
    if f in owned then 1 else 0
  }

  /** `owned` are the frames held by the kernel itself: task_struct pages, and pages between
      their allocation and their installation. */
  ghost predicate CountsExact(m: Mem, owned: set<nat>) {
    && (forall f | 256 <= f < High(m) :: Count(m, f) == |Refs(m, f)| + Own(owned, f))
    && (forall f | f in owned :: 256 <= f < High(m) && Count(m, f) == 1)
  }

  /** Frames above HIGH_MEMORY keep the mark mem_init gave them. */
  ghost predicate Reserved(m: Mem) {
    forall f | High(m) <= f < 4096 :: Count(m, f) == USED
  }

  ghost predicate Inv(m: Mem, owned: set<nat>) {
    && KernelMap(m)
    && TablesOk(m)
    && EntriesOk(m)
    && SameOffset(m)
    && CountsExact(m, owned)
    && Reserved(m)
  }

  // ---------- consequences ----------

  /** A frame counted once has one reference. */
  lemma Exclusive(m: Mem, owned: set<nat>, d: nat, i: nat, f: nat)
    requires Inv(m, owned) && 16 <= d < 1024 && 0 <= i <= 1024
    requires Names(m, d, i, f) && 256 <= f < High(m) && Count(m, f) == 1
    ensures f !in owned
    ensures forall e, j | 16 <= e < 1024 && 0 <= j <= 1024 && Names(m, e, j, f) :: e == d && j == i
  {
    assert (d, i) in Refs(m, f);
    assert Refs(m, f) != {};
    assert |Refs(m, f)| > 0;
    forall e, j | 16 <= e < 1024 && 0 <= j <= 1024 && Names(m, e, j, f)
      ensures e == d && j == i
    {
      One(Refs(m, f), (d, i), (e, j));
    }
  }

  /** A frame the kernel holds itself is named by no entry. */
  lemma OwnedUnnamed(m: Mem, owned: set<nat>, f: nat)
    requires Inv(m, owned) && f in owned
    ensures forall d, i | 16 <= d < 1024 && 0 <= i <= 1024 :: !Names(m, d, i, f)
  {
    assert |Refs(m, f)| == 0;
    forall d, i | 16 <= d < 1024 && 0 <= i <= 1024
      ensures !Names(m, d, i, f)
    {
      assert (d, i) !in Refs(m, f);
    }
  }

  lemma FreeUnnamed(m: Mem, owned: set<nat>, f: nat)
    requires Inv(m, owned) && 256 <= f < 4096 && Count(m, f) == 0
    ensures f < High(m) && f !in owned
    ensures forall d, i | 16 <= d < 1024 && 0 <= i <= 1024 :: !Names(m, d, i, f)
  {
    assert |Refs(m, f)| == 0;
    forall d, i | 16 <= d < 1024 && 0 <= i <= 1024
      ensures !Names(m, d, i, f)
    {
      assert (d, i) !in Refs(m, f);
    }
  }

  /** Different directory entries use different tables. */
  lemma TableAlone(m: Mem, owned: set<nat>, d: nat)
    requires Inv(m, owned) && 16 <= d < 1024 && Pde(m, d).present
    ensures Pde(m, d).frame !in owned
    ensures forall e | 16 <= e < 1024 && Pde(m, e).present && Pde(m, e).frame == Pde(m, d).frame :: e == d
    ensures forall e, i | 16 <= e < 1024 && 0 <= i < 1024 && Maps(m, e, i) :: Pte(m, e, i).frame != Pde(m, d).frame
  {
    var f := Pde(m, d).frame;
    assert Names(m, d, 1024, f);
    Exclusive(m, owned, d, 1024, f);
    forall e | 16 <= e < 1024 && Pde(m, e).present && Pde(m, e).frame == f
      ensures e == d
    {
      assert Names(m, e, 1024, f);
    }
    forall e, i | 16 <= e < 1024 && 0 <= i < 1024 && Maps(m, e, i)
      ensures Pte(m, e, i).frame != f
    {
      assert Names(m, e, i, Pte(m, e, i).frame);
    }
  }

  // ---------- steps that leave the tables alone ----------

  ghost predicate SameTables(m: Mem, n: Mem) {
    && m.high == n.high
    && (forall x | 0 <= x < 5120 :: Peek(n, x) == Peek(m, x))
    && (forall d, i | 16 <= d < 1024 && 0 <= i < 1024 && Pde(m, d).present :: Pte(n, d, i) == Pte(m, d, i))
  }

  lemma SameNames(m: Mem, n: Mem)
    requires SameTables(m, n)
    ensures forall d | 0 <= d < 1024 :: Pde(n, d) == Pde(m, d)
    ensures forall d, i, f | 16 <= d < 1024 && 0 <= i <= 1024 :: Names(n, d, i, f) <==> Names(m, d, i, f)
    ensures forall f :: Refs(n, f) == Refs(m, f)
  {
    forall d | 0 <= d < 1024
      ensures Pde(n, d) == Pde(m, d)
    {
      assert Peek(n, d) == Peek(m, d);
    }
    forall f
      ensures Refs(n, f) == Refs(m, f)
    {
      forall d, i
        ensures (d, i) in Refs(n, f) <==> (d, i) in Refs(m, f)
      {
      }
    }
  }

  lemma SameTablesKeep(m: Mem, n: Mem, owned: set<nat>, keep: set<nat>)
    requires Inv(m, owned) && SameTables(m, n)
    requires forall f | 256 <= f < 4096 && Count(m, f) > 0 && f !in owned :: Count(n, f) == Count(m, f) && f !in keep
    requires forall f | 256 <= f < 4096 && (Count(m, f) == 0 || f in owned) :: Count(n, f) == Own(keep, f)
    requires forall f | f in keep :: 256 <= f < High(m)
    ensures Inv(n, keep)
  {
    SameNames(m, n);
    forall d | 16 <= d < 1024 && Pde(n, d).present
      ensures 256 <= Pde(n, d).frame < High(n) && Count(n, Pde(n, d).frame) == 1
    {
      TableAlone(m, owned, d);
    }
    forall d, i | 16 <= d < 1024 && 0 <= i < 1024 && Maps(n, d, i)
      ensures Pte(n, d, i).frame < High(n)
      ensures Pte(n, d, i).writable ==> 256 <= Pte(n, d, i).frame && Count(n, Pte(n, d, i).frame) == 1
    {
      assert Maps(m, d, i);
      if Pte(m, d, i).writable {
        assert Names(m, d, i, Pte(m, d, i).frame);
        Exclusive(m, owned, d, i, Pte(m, d, i).frame);
      }
    }
    assert KernelMap(n) by {
      forall x | 1024 <= x < 5120
        ensures Peek(n, x) == Grant(x - 1024)
      {
        assert Peek(n, x) == Peek(m, x);
      }
    }
  }

  /** What get_free_page does to the counts and to the words of memory. */
  ghost predicate Took(m: Mem, n: Mem, g: nat) {
    && 256 <= g < 4096
    && n.high == m.high
    && Count(m, g) == 0 && Count(n, g) == 1
    && (forall f: nat | f != g :: Count(n, f) == Count(m, f))
    && (forall x: nat | x < g * 1024 || g * 1024 + 1024 <= x :: Peek(n, x) == Peek(m, x))
    && (forall x | g * 1024 <= x < g * 1024 + 1024 :: Peek(n, x) == ZERO)
  }

  /** get_free_page gives nothing only when every frame is in use; otherwise the highest free frame,
      cleared and counted once, and changes nothing else. */
  lemma GetFreeEffect(m: Mem)
    ensures GetFreePage(m).1 == 0 ==> GetFreePage(m).0 == m && forall f | 256 <= f < 4096 :: Count(m, f) != 0
    ensures GetFreePage(m).1 != 0 ==> Took(m, GetFreePage(m).0, GetFreePage(m).1)
    ensures forall f | 256 <= f < 4096 && f > GetFreePage(m).1 :: Count(m, f) != 0
  {
    forall f | 256 <= f < 4096 && f > GetFreePage(m).1
      ensures Count(m, f) != 0
    {
      assert m.count[f - 256] != 0;
    }
    if HighestFree(m.count, 3840) < 0 {
      forall f | 256 <= f < 4096
        ensures Count(m, f) != 0
      {
        assert m.count[f - 256] != 0;
      }
    }
  }

  lemma TookEntry(m: Mem, n: Mem, g: nat, d: nat, i: nat)
    requires Took(m, n, g) && d < 1024 && i < 1024 && Count(m, Pde(m, d).frame) == 1
    ensures Pde(n, d) == Pde(m, d) && Pte(n, d, i) == Pte(m, d, i)
  {
    var f: nat := Pde(m, d).frame;
    assert f != g;
    assert Peek(n, d) == Peek(m, d);
    assert Peek(n, f * 1024 + i) == Peek(m, f * 1024 + i);
  }

  lemma TookTables(m: Mem, n: Mem, g: nat, owned: set<nat>)
    requires Inv(m, owned) && Took(m, n, g)
    ensures SameTables(m, n)
  {
    forall d, i | 16 <= d < 1024 && 0 <= i < 1024 && Pde(m, d).present
      ensures Pte(n, d, i) == Pte(m, d, i)
    {
      assert Count(m, Pde(m, d).frame) == 1;
      TookEntry(m, n, g, d, i);
    }
  }

  lemma TookKeeps(m: Mem, n: Mem, g: nat, owned: set<nat>)
    requires Inv(m, owned) && Took(m, n, g)
    ensures g < High(m) && g !in owned
    ensures forall d, i | 16 <= d < 1024 && 0 <= i <= 1024 :: !Names(m, d, i, g)
    ensures SameTables(m, n)
    ensures Inv(n, owned + {g})
  {
    FreeUnnamed(m, owned, g);
    TookTables(m, n, g, owned);
    SameTablesKeep(m, n, owned, owned + {g});
  }

  // ---------- writing one table entry ----------

  /** n is m with table entry (d, i) replaced by w; the counts may differ. */
  ghost predicate Wrote(m: Mem, n: Mem, d: nat, i: nat, w: Word) {
    && 16 <= d < 1024 && i < 1024 && Pde(m, d).present
    && m.high == n.high
    && (forall x | 0 <= x < 5120 :: Peek(n, x) == Peek(m, x))
    && (forall e, j | 16 <= e < 1024 && 0 <= j < 1024 && Pde(m, e).present ::
          Pte(n, e, j) == if e == d && j == i then w else Pte(m, e, j))
  }

  lemma PokeWrites(m: Mem, owned: set<nat>, d: nat, i: nat, w: Word)
    requires Inv(m, owned) && 16 <= d < 1024 && i < 1024 && Pde(m, d).present
    ensures Wrote(m, Poke(m, PteIndex(m, d, i), w), d, i, w)
  {
    TableAlone(m, owned, d);
    var n := Poke(m, PteIndex(m, d, i), w);
    forall e, j | 16 <= e < 1024 && 0 <= j < 1024 && Pde(m, e).present
      ensures Pte(n, e, j) == if e == d && j == i then w else Pte(m, e, j)
    {
      assert Pde(n, e) == Pde(m, e);
      assert e != d ==> Pde(m, e).frame != Pde(m, d).frame;
    }
  }

  lemma SwapOne<T>(s: set<T>, t: set<T>, p: T)
    requires s - {p} == t - {p}
    ensures |t| + Bit(p in s) == |s| + Bit(p in t)
  {
    assert s == if p in s then (s - {p}) + {p} else s - {p};
    assert t == if p in t then (s - {p}) + {p} else s - {p};
  }

  lemma WroteNames(m: Mem, n: Mem, d: nat, i: nat, w: Word, f: nat)
    requires Wrote(m, n, d, i, w)
    ensures forall e, j | 16 <= e < 1024 && 0 <= j <= 1024 && !(e == d && j == i) ::
            Names(n, e, j, f) <==> Names(m, e, j, f)
    ensures Names(n, d, i, f) <==> w.present && w.frame == f
  {
    forall e | 0 <= e < 1024
      ensures Pde(n, e) == Pde(m, e)
    {
      assert Peek(n, e) == Peek(m, e);
    }
  }

  lemma WroteRefs(m: Mem, n: Mem, d: nat, i: nat, w: Word, f: nat)
    requires Wrote(m, n, d, i, w)
    ensures |Refs(n, f)| + Bit(Names(m, d, i, f)) == |Refs(m, f)| + Bit(w.present && w.frame == f)
  {
    WroteNames(m, n, d, i, w, f);
    forall e, j
      ensures (e, j) in Refs(n, f) - {(d, i)} <==> (e, j) in Refs(m, f) - {(d, i)}
    {
    }
    SwapOne(Refs(m, f), Refs(n, f), (d, i));
  }

  /** The counts of n account for the entry that changed. */
  ghost predicate Accounts(m: Mem, n: Mem, d: nat, i: nat, w: Word, owned: set<nat>, keep: set<nat>) {
    && keep <= owned
    && (forall f | 256 <= f < High(m) ::
          Count(n, f) + Own(owned, f) + Bit(Names(m, d, i, f)) == Count(m, f) + Own(keep, f)
            + Bit(w.present && w.frame == f))
    && (forall f | High(m) <= f < 4096 :: Count(n, f) == Count(m, f))
  }

  /** w may be installed at (d, i): it shares frames only at the same offset, with nobody
      holding write access, and is itself writable only when alone. */
  ghost predicate Fits(m: Mem, n: Mem, d: nat, i: nat, w: Word) {
    w.present ==>
      && w.frame < High(m)
      && (w.writable ==> 256 <= w.frame && Count(n, w.frame) == 1)
      && (forall e, j | 16 <= e < 1024 && 0 <= j <= 1024 && !(e == d && j == i) && 256 <= w.frame
         && Names(m, e, j, w.frame) ::
            e % 16 == d % 16 && j == i && !Pte(m, e, j).writable)
  }

  lemma WroteCounts(m: Mem, n: Mem, d: nat, i: nat, w: Word, owned: set<nat>, keep: set<nat>)
    requires Inv(m, owned) && Wrote(m, n, d, i, w) && Accounts(m, n, d, i, w, owned, keep)
    requires forall f | f in keep :: Count(n, f) == 1
    ensures CountsExact(n, keep) && Reserved(n) && KernelMap(n)
  {
    forall f | 256 <= f < High(n)
      ensures Count(n, f) == |Refs(n, f)| + Own(keep, f)
    {
      WroteRefs(m, n, d, i, w, f);
    }
    forall x | 1024 <= x < 5120
      ensures Peek(n, x) == Grant(x - 1024)
    {
      assert Peek(n, x) == Peek(m, x);
    }
    forall e | 0 <= e < 16
      ensures Pde(n, e) == Pde(m, e)
    {
      assert Peek(n, e) == Peek(m, e);
    }
  }

  lemma WroteTables(m: Mem, n: Mem, d: nat, i: nat, w: Word, owned: set<nat>, keep: set<nat>)
    requires Inv(m, owned) && Wrote(m, n, d, i, w) && Accounts(m, n, d, i, w, owned, keep) && Fits(m, n, d, i, w)
    ensures TablesOk(n)
  {
    forall e | 16 <= e < 1024 && Pde(n, e).present
      ensures 256 <= Pde(n, e).frame < High(n) && Count(n, Pde(n, e).frame) == 1
    {
      assert Peek(n, e) == Peek(m, e);
      var t := Pde(m, e).frame;
      TableAlone(m, owned, e);
      assert Names(m, e, 1024, t);
      assert !Names(m, d, i, t);
    }
  }

  lemma WroteEntries(m: Mem, n: Mem, d: nat, i: nat, w: Word, owned: set<nat>, keep: set<nat>)
    requires Inv(m, owned) && Wrote(m, n, d, i, w) && Accounts(m, n, d, i, w, owned, keep) && Fits(m, n, d, i, w)
    ensures EntriesOk(n)
  {
    forall e, j | 16 <= e < 1024 && 0 <= j < 1024 && Maps(n, e, j)
      ensures Pte(n, e, j).frame < High(n)
      ensures Pte(n, e, j).writable ==> 256 <= Pte(n, e, j).frame && Count(n, Pte(n, e, j).frame) == 1
    {
      assert Peek(n, e) == Peek(m, e);
      if !(e == d && j == i) {
        assert Maps(m, e, j);
        if Pte(m, e, j).writable {
          var f := Pte(m, e, j).frame;
          assert Names(m, e, j, f);
          Exclusive(m, owned, e, j, f);
          assert !Names(m, d, i, f);
        }
      }
    }
  }

  lemma WroteOffsets(m: Mem, n: Mem, d: nat, i: nat, w: Word, owned: set<nat>)
    requires Inv(m, owned) && Wrote(m, n, d, i, w) && Fits(m, n, d, i, w)
    ensures SameOffset(n)
  {
    forall a, j, b, k, f | 16 <= a < 1024 && 16 <= b < 1024 && 0 <= j < 1024 && 0 <= k < 1024 && 256 <= f
      && Names(n, a, j, f) && Names(n, b, k, f)
      ensures a % 16 == b % 16 && j == k
    {
      WroteNames(m, n, d, i, w, f);
    }
  }

  lemma WroteKeeps(m: Mem, n: Mem, d: nat, i: nat, w: Word, owned: set<nat>, keep: set<nat>)
    requires Inv(m, owned) && Wrote(m, n, d, i, w) && Accounts(m, n, d, i, w, owned, keep) && Fits(m, n, d, i, w)
    requires forall f | f in keep :: Count(n, f) == 1
    ensures Inv(n, keep)
  {
    WroteCounts(m, n, d, i, w, owned, keep);
    WroteTables(m, n, d, i, w, owned, keep);
    WroteEntries(m, n, d, i, w, owned, keep);
    WroteOffsets(m, n, d, i, w, owned);
  }

  // ---------- writing one directory entry ----------

  /** n is m with directory entry d replaced by w, at a moment when table d is empty. */
  ghost predicate WroteDir(m: Mem, n: Mem, d: nat, w: Word) {
    && 16 <= d < 1024
    && m.high == n.high
    && Pde(n, d) == w
    && (forall x | 0 <= x < 5120 && x != d :: Peek(n, x) == Peek(m, x))
    && (forall e, j | 16 <= e < 1024 && 0 <= j < 1024 && e != d && Pde(m, e).present :: Pte(n, e, j) == Pte(m, e, j))
    && (forall j | 0 <= j < 1024 :: !Maps(m, d, j) && !Maps(n, d, j))
  }

  ghost predicate AccountsDir(m: Mem, n: Mem, d: nat, w: Word, owned: set<nat>, keep: set<nat>) {
    && keep <= owned
    && (w.present ==> w.frame in owned && Count(n, w.frame) == 1)
    && (forall f | 256 <= f < High(m) ::
          Count(n, f) + Own(owned, f) + Bit(Names(m, d, 1024, f)) == Count(m, f) + Own(keep, f)
            + Bit(w.present && w.frame == f))
    && (forall f | High(m) <= f < 4096 :: Count(n, f) == Count(m, f))
    && (forall f | f in keep :: Count(n, f) == 1)
  }

  lemma WroteDirNames(m: Mem, n: Mem, d: nat, w: Word, f: nat)
    requires WroteDir(m, n, d, w)
    ensures forall e, j | 16 <= e < 1024 && 0 <= j <= 1024 && !(e == d && j == 1024) ::
            Names(n, e, j, f) <==> Names(m, e, j, f)
    ensures Names(n, d, 1024, f) <==> w.present && w.frame == f
  {
    forall e | 0 <= e < 1024 && e != d
      ensures Pde(n, e) == Pde(m, e)
    {
      assert Peek(n, e) == Peek(m, e);
    }
    forall e, j | 16 <= e < 1024 && 0 <= j <= 1024 && !(e == d && j == 1024)
      ensures Names(n, e, j, f) <==> Names(m, e, j, f)
    {
      if e == d {
        assert !Maps(m, d, j) && !Maps(n, d, j);
      }
    }
  }

  lemma WroteDirCounts(m: Mem, n: Mem, d: nat, w: Word, owned: set<nat>, keep: set<nat>)
    requires Inv(m, owned) && WroteDir(m, n, d, w) && AccountsDir(m, n, d, w, owned, keep)
    ensures CountsExact(n, keep) && Reserved(n) && KernelMap(n) && SameOffset(n)
  {
    forall f | 256 <= f < High(n)
      ensures Count(n, f) == |Refs(n, f)| + Own(keep, f)
    {
      WroteDirNames(m, n, d, w, f);
      forall e, j
        ensures (e, j) in Refs(n, f) - {(d, 1024)} <==> (e, j) in Refs(m, f) - {(d, 1024)}
      {
      }
      SwapOne(Refs(m, f), Refs(n, f), (d, 1024));
    }
    forall x | 1024 <= x < 5120
      ensures Peek(n, x) == Grant(x - 1024)
    {
      assert Peek(n, x) == Peek(m, x);
    }
    forall e | 0 <= e < 16
      ensures Pde(n, e) == Pde(m, e)
    {
      assert Peek(n, e) == Peek(m, e);
    }
    forall a, j, b, k, f | 16 <= a < 1024 && 16 <= b < 1024 && 0 <= j < 1024 && 0 <= k < 1024 && 256 <= f
      && Names(n, a, j, f) && Names(n, b, k, f)
      ensures a % 16 == b % 16 && j == k
    {
      WroteDirNames(m, n, d, w, f);
    }
  }

  lemma WroteDirKeeps(m: Mem, n: Mem, d: nat, w: Word, owned: set<nat>, keep: set<nat>)
    requires Inv(m, owned) && WroteDir(m, n, d, w) && AccountsDir(m, n, d, w, owned, keep)
    ensures Inv(n, keep)
  {
    WroteDirCounts(m, n, d, w, owned, keep);
    forall e | 16 <= e < 1024 && Pde(n, e).present
      ensures 256 <= Pde(n, e).frame < High(n) && Count(n, Pde(n, e).frame) == 1
    {
      if e != d {
        assert Peek(n, e) == Peek(m, e);
        TableAlone(m, owned, e);
      }
    }
    forall e, j | 16 <= e < 1024 && 0 <= j < 1024 && Maps(n, e, j)
      ensures Pte(n, e, j).frame < High(n)
      ensures Pte(n, e, j).writable ==> 256 <= Pte(n, e, j).frame && Count(n, Pte(n, e, j).frame) == 1
    {
      assert e != d;
      assert Peek(n, e) == Peek(m, e);
      assert Maps(m, e, j);
      if Pte(m, e, j).writable {
        assert Names(m, e, j, Pte(m, e, j).frame);
        Exclusive(m, owned, e, j, Pte(m, e, j).frame);
      }
    }
  }

  // ---------- the counter bound ----------

  /** The task whose 64MB region holds an entry. */
  function TaskOf(p: (nat, nat)): nat {
    p.0 / 16
  }

  /** At most one entry of each of the 63 user tasks names a frame, so the byte counter of a
      tracked frame never exceeds 63 and `mem_map[...]++` cannot wrap. */
  lemma CountBound(m: Mem, owned: set<nat>, f: nat)
    requires Inv(m, owned) && 256 <= f < High(m)
    ensures Count(m, f) <= 63
  {
    if Count(m, f) > 1 {
      forall p | p in Refs(m, f)
        ensures p.1 < 1024 && 1 <= TaskOf(p) <= 63
      {
        assert Names(m, p.0, p.1, f);
      }
      forall p, q | p in Refs(m, f) && q in Refs(m, f) && TaskOf(p) == TaskOf(q)
        ensures p == q
      {
        assert Names(m, p.0, p.1, f) && Names(m, q.0, q.1, f);
      }
      var hole: ((nat, nat)) -> int := p => TaskOf(p);
      Pigeonhole(Refs(m, f), hole, 63);
    }
  }
}
