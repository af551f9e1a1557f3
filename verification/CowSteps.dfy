/** Each elementary step of mm/memory.c keeps the invariant, and what it changes in the
    pages that user tasks see. */
module CowSteps {
  import opened Paging
  import opened Memory
  import opened CowInvariant

  /** A page as a task sees it: a frame of the kernel image below LOW_MEM, which is never
      written, or private contents. A page that is not mapped yet reads as zeros. */
  datatype Page = Low(frame: nat) | Private(words: seq<Word>)

  function PageWords(m: Mem, f: nat): (r: seq<Word>)
    ensures |r| == 1024
    ensures forall o | 0 <= o < 1024 :: r[o] == Peek(m, f * 1024 + o)
  {
    seq(1024, o requires 0 <= o < 1024 => Peek(m, f * 1024 + o))
  }

  function ZeroWords(): (r: seq<Word>)
    ensures |r| == 1024
    ensures forall o | 0 <= o < 1024 :: r[o] == ZERO
  {
    seq(1024, o requires 0 <= o < 1024 => ZERO)
  }

  /** Page i of the 4MB that directory entry d covers. */
  function View(m: Mem, d: nat, i: nat): Page {
    if !Maps(m, d, i) then Private(ZeroWords())
    else if Pte(m, d, i).frame < 256 then Low(Pte(m, d, i).frame)
    else Private(PageWords(m, Pte(m, d, i).frame))
  }

  /** The kernel image keeps its words; only directory entries 16..1023 may change. */
  ghost predicate SameImage(m: Mem, n: Mem) {
    && m.high == n.high
    && (forall x | 0 <= x < 16 || 1024 <= x < 256 * 1024 :: Peek(n, x) == Peek(m, x))
  }

  lemma KeepView(m: Mem, n: Mem, d: nat, i: nat)
    requires Maps(n, d, i) == Maps(m, d, i)
    requires Maps(m, d, i) ==> Pte(n, d, i).frame == Pte(m, d, i).frame
    requires Maps(m, d, i) ==> PageWords(n, Pte(m, d, i).frame) == PageWords(m, Pte(m, d, i).frame)
    ensures View(n, d, i) == View(m, d, i)
  {
  }

  // ---------- get_free_page ----------

  lemma TookViews(m: Mem, n: Mem, g: nat, owned: set<nat>)
    requires Inv(m, owned) && Took(m, n, g)
    ensures forall d, i | 16 <= d < 1024 && 0 <= i < 1024 :: Maps(n, d, i) == Maps(m, d, i)
    ensures forall d, i | 16 <= d < 1024 && 0 <= i < 1024 :: View(n, d, i) == View(m, d, i)
    ensures SameImage(m, n)
  {
    TookKeeps(m, n, g, owned);
    SameNames(m, n);
    forall d, i | 16 <= d < 1024 && 0 <= i < 1024
      ensures Maps(n, d, i) == Maps(m, d, i)
      ensures View(n, d, i) == View(m, d, i)
    {
      if Maps(m, d, i) {
        assert Names(m, d, i, Pte(m, d, i).frame);
        TookWords(m, n, g, Pte(m, d, i).frame);
      }
      KeepView(m, n, d, i);
    }
  }

  lemma TookWords(m: Mem, n: Mem, g: nat, f: nat)
    requires Took(m, n, g) && f != g
    ensures PageWords(n, f) == PageWords(m, f)
  {
  }

  // ---------- free_page ----------

  lemma FreePageEffect(m: Mem, f: nat)
    requires f < High(m)
    ensures f < 256 ==> FreePage(m, f * 4096) == Done(m)
    ensures f >= 256 && Count(m, f) > 0 ==> FreePage(m, f * 4096) == Done(SetCount(m, f, Count(m, f) - 1))
    ensures f >= 256 && Count(m, f) == 0 ==> FreePage(m, f * 4096) == Panic
  {
  }

  /** Giving back a frame the kernel holds itself. */
  lemma FreeOwned(m: Mem, owned: set<nat>, f: nat)
    requires Inv(m, owned) && f in owned
    ensures FreePage(m, f * 4096).Done?
    ensures var n := FreePage(m, f * 4096).value;
            && n == SetCount(m, f, 0) && Inv(n, owned - {f}) && SameTables(m, n) && SameImage(m, n)
            && (forall d, i | 16 <= d < 1024 && 0 <= i < 1024 :: View(n, d, i) == View(m, d, i))
  {
    FreePageEffect(m, f);
    var n := SetCount(m, f, 0);
    forall d, i | 16 <= d < 1024 && 0 <= i < 1024 && Pde(m, d).present
      ensures Pte(n, d, i) == Pte(m, d, i)
    {
      assert Pde(n, d) == Pde(m, d);
    }
    SameTablesKeep(m, n, owned, owned - {f});
    forall d, i | 16 <= d < 1024 && 0 <= i < 1024
      ensures View(n, d, i) == View(m, d, i)
    {
      assert Pde(n, d) == Pde(m, d);
      assert PageWords(n, Pte(m, d, i).frame) == PageWords(m, Pte(m, d, i).frame);
      KeepView(m, n, d, i);
    }
  }

  // ---------- one table entry ----------

  /** Every page but (d, i) looks the same after a table entry is written. */
  ghost predicate OtherViews(m: Mem, n: Mem, d: nat, i: nat) {
    && SameImage(m, n)
    && (forall e | 0 <= e < 1024 :: Pde(n, e) == Pde(m, e))
    && (forall e, j | 16 <= e < 1024 && 0 <= j < 1024 && !(e == d && j == i) ::
          Maps(n, e, j) == Maps(m, e, j) && View(n, e, j) == View(m, e, j))
  }

  lemma PokeOthers(m: Mem, n: Mem, owned: set<nat>, d: nat, i: nat, w: Word)
    requires Inv(m, owned) && 16 <= d < 1024 && i < 1024 && Pde(m, d).present
    requires n.ram == Poke(m, PteIndex(m, d, i), w).ram && n.high == m.high
    ensures Wrote(m, n, d, i, w)
    ensures OtherViews(m, n, d, i)
    ensures forall e, j | 16 <= e < 1024 && 0 <= j < 1024 && Maps(m, e, j) ::
            PageWords(n, Pte(m, e, j).frame) == PageWords(m, Pte(m, e, j).frame)
  {
    PokeWrites(m, owned, d, i, w);
    var p := Poke(m, PteIndex(m, d, i), w);
    SameRamWrote(m, p, n, d, i, w);
    TableAlone(m, owned, d);
    var t: nat := Pde(m, d).frame;
    forall e, j | 16 <= e < 1024 && 0 <= j < 1024 && Maps(m, e, j)
      ensures PageWords(n, Pte(m, e, j).frame) == PageWords(m, Pte(m, e, j).frame)
    {
      PokedElsewhere(m, n, t, i, w, Pte(m, e, j).frame);
    }
    PokedImage(m, n, t, i, w);
    WroteOthers(m, n, d, i, w);
  }

  lemma SameRamWrote(m: Mem, p: Mem, n: Mem, d: nat, i: nat, w: Word)
    requires Wrote(m, p, d, i, w) && n.ram == p.ram && n.high == p.high
    ensures Wrote(m, n, d, i, w)
  {
    assert forall x :: Peek(n, x) == Peek(p, x);
    forall e, j | 16 <= e < 1024 && 0 <= j < 1024 && Pde(m, e).present
      ensures Pte(n, e, j) == Pte(p, e, j)
    {
      assert Peek(n, e) == Peek(p, e);
    }
  }

  lemma PokedElsewhere(m: Mem, n: Mem, t: nat, i: nat, w: Word, g: nat)
    requires i < 1024 && n.ram == Poke(m, t * 1024 + i, w).ram && g != t
    ensures PageWords(n, g) == PageWords(m, g)
  {
  }

  lemma PokedImage(m: Mem, n: Mem, t: nat, i: nat, w: Word)
    requires i < 1024 && 256 <= t && n.ram == Poke(m, t * 1024 + i, w).ram && n.high == m.high
    ensures SameImage(m, n)
  {
  }

  lemma WroteOthers(m: Mem, n: Mem, d: nat, i: nat, w: Word)
    requires Wrote(m, n, d, i, w) && SameImage(m, n)
    requires forall e, j | 16 <= e < 1024 && 0 <= j < 1024 && Maps(m, e, j) ::
             PageWords(n, Pte(m, e, j).frame) == PageWords(m, Pte(m, e, j).frame)
    ensures OtherViews(m, n, d, i)
  {
    forall e | 0 <= e < 1024
      ensures Pde(n, e) == Pde(m, e)
    {
      assert Peek(n, e) == Peek(m, e);
    }
    forall e, j | 16 <= e < 1024 && 0 <= j < 1024 && !(e == d && j == i)
      ensures Maps(n, e, j) == Maps(m, e, j) && View(n, e, j) == View(m, e, j)
    {
      assert Maps(m, e, j) == Maps(n, e, j);
    }
  }

  /** The count of one frame dropped by b. */
  ghost predicate Dropped(m: Mem, n: Mem, d: nat, i: nat) {
    forall f | 256 <= f < 4096 :: Count(n, f) + Bit(Names(m, d, i, f)) == Count(m, f)
  }

  lemma FreeEntryIs(m: Mem, d: nat, i: nat)
    requires i < 1024 && Pde(m, d).present
    requires Pte(m, d, i).present ==> Pte(m, d, i).frame < High(m) && High(m) <= 4096
                                      && (Pte(m, d, i).frame >= 256 ==> Count(m, Pte(m, d, i).frame) > 0)
    ensures FreeEntry(m, PteIndex(m, d, i)).Done?
    ensures var n := FreeEntry(m, PteIndex(m, d, i)).value;
            n.ram == Poke(m, PteIndex(m, d, i), ZERO).ram && n.high == m.high && Dropped(m, n, d, i)
  {
    if Pte(m, d, i).present {
      FreePageEffect(m, Pte(m, d, i).frame);
    }
  }

  /** free_page_tables on one entry: never the panic, and only that page goes away. */
  lemma FreeEntryStep(m: Mem, owned: set<nat>, d: nat, i: nat)
    requires Inv(m, owned) && 16 <= d < 1024 && i < 1024 && Pde(m, d).present
    ensures FreeEntry(m, PteIndex(m, d, i)).Done?
    ensures var n := FreeEntry(m, PteIndex(m, d, i)).value;
            && Inv(n, owned) && Wrote(m, n, d, i, ZERO) && OtherViews(m, n, d, i) && Dropped(m, n, d, i)
  {
    var w := Pte(m, d, i);
    if w.present {
      assert Maps(m, d, i);
      if w.frame >= 256 {
        assert Names(m, d, i, w.frame);
        assert (d, i) in Refs(m, w.frame);
        assert |Refs(m, w.frame)| > 0;
      }
    }
    FreeEntryIs(m, d, i);
    var n := FreeEntry(m, PteIndex(m, d, i)).value;
    PokeOthers(m, n, owned, d, i, ZERO);
    forall f | f in owned
      ensures Count(n, f) == 1
    {
      OwnedUnnamed(m, owned, f);
      assert !Names(m, d, i, f);
    }
    WroteKeeps(m, n, d, i, ZERO, owned, owned);
  }

  // ---------- sharing one entry on fork ----------

  lemma NobodyWrites(m: Mem, owned: set<nat>, d: nat, i: nat)
    requires Inv(m, owned) && 16 <= d < 1024 && i < 1024 && Maps(m, d, i) && Pte(m, d, i).frame >= 256
    ensures Pte(m, d, i).frame !in owned
    ensures forall e, j | 16 <= e < 1024 && 0 <= j <= 1024 && Names(m, e, j, Pte(m, d, i).frame) ::
              e % 16 == d % 16 && j == i && (!(e == d && j == i) ==> !Pte(m, e, j).writable)
  {
    var f := Pte(m, d, i).frame;
    assert Names(m, d, i, f);
    if f in owned {
      OwnedUnnamed(m, owned, f);
    }
    forall e, j | 16 <= e < 1024 && 0 <= j <= 1024 && Names(m, e, j, f)
      ensures e % 16 == d % 16 && j == i && (!(e == d && j == i) ==> !Pte(m, e, j).writable)
    {
      if j == 1024 {
        TableAlone(m, owned, e);
      } else if Pte(m, e, j).writable {
        Exclusive(m, owned, e, j, f);
      }
    }
  }

  /** The parent's entry becomes read-only: nothing any task sees changes. */
  lemma ProtectStep(m: Mem, owned: set<nat>, d: nat, i: nat)
    requires Inv(m, owned) && 16 <= d < 1024 && i < 1024 && Maps(m, d, i) && Pte(m, d, i).frame >= 256
    ensures var n := Poke(m, PteIndex(m, d, i), ReadOnly(Pte(m, d, i)));
            && Inv(n, owned) && Wrote(m, n, d, i, ReadOnly(Pte(m, d, i))) && OtherViews(m, n, d, i)
            && View(n, d, i) == View(m, d, i)
            && (forall f | 256 <= f < 4096 :: Count(n, f) == Count(m, f))
  {
    var ro := ReadOnly(Pte(m, d, i));
    var n := Poke(m, PteIndex(m, d, i), ro);
    PokeOthers(m, n, owned, d, i, ro);
    NobodyWrites(m, owned, d, i);
    assert Names(m, d, i, ro.frame);
    forall f | 256 <= f < 4096
      ensures Count(n, f) == Count(m, f)
    {
    }
    WroteKeeps(m, n, d, i, ro, owned, owned);
  }

  /** A read-only entry is duplicated at the same offset of another region. */
  lemma DuplicateStep(m: Mem, owned: set<nat>, d: nat, e: nat, i: nat)
    requires Inv(m, owned) && 16 <= d < 1024 && 16 <= e < 1024 && d != e && d % 16 == e % 16 && i < 1024
    requires Maps(m, d, i) && !Pte(m, d, i).writable && Pde(m, e).present && !Maps(m, e, i)
    ensures var w := Pte(m, d, i);
            var p := Poke(m, PteIndex(m, e, i), w);
            var n := if w.frame < 256 then p else SetCount(p, w.frame, (Count(m, w.frame) + 1) % 256);
            && Inv(n, owned) && Wrote(m, n, e, i, w) && OtherViews(m, n, e, i)
            && View(n, e, i) == View(m, d, i)
            && (forall f | 256 <= f < 4096 :: Count(n, f) == Count(m, f) + Bit(Names(m, d, i, f)))
  {
    var w := Pte(m, d, i);
    var p := Poke(m, PteIndex(m, e, i), w);
    var n := if w.frame < 256 then p else SetCount(p, w.frame, (Count(m, w.frame) + 1) % 256);
    assert Names(m, d, i, w.frame);
    if w.frame >= 256 {
      NobodyWrites(m, owned, d, i);
      CountBound(m, owned, w.frame);
    }
    PokeOthers(m, n, owned, e, i, w);
    SharedCount(m, p, n, w);
    DuplicateCounts(m, n, d, e, i);
    WroteKeeps(m, n, e, i, w, owned, owned);
  }

  lemma SharedCount(m: Mem, p: Mem, n: Mem, w: Word)
    requires p.count == m.count && w.frame < 4096 && (w.frame >= 256 ==> Count(m, w.frame) < 255)
    requires n.count == if w.frame < 256 then p.count else SetCount(p, w.frame, (Count(m, w.frame) + 1) % 256).count
    ensures forall f | 256 <= f < 4096 :: Count(n, f) == Count(m, f) + Bit(f == w.frame)
  {
  }

  lemma DuplicateCounts(m: Mem, n: Mem, d: nat, e: nat, i: nat)
    requires i < 1024 && Maps(m, d, i) && Pde(m, e).present && !Maps(m, e, i)
    requires forall f | 256 <= f < 4096 :: Count(n, f) == Count(m, f) + Bit(f == Pte(m, d, i).frame)
    ensures forall f | 256 <= f < 4096 :: Count(n, f) == Count(m, f) + Bit(Names(m, d, i, f)) && !Names(m, e, i, f)
  {
  }

  /** n is m after entry (d, i) was shared with (e, i): what each task sees, which entries
      changed, and the count of the shared frame. */
  ghost predicate Shared(m: Mem, n: Mem, d: nat, e: nat, i: nat) {
    && SameImage(m, n)
    && (forall a | 0 <= a < 1024 :: Pde(n, a) == Pde(m, a))
    && (forall a, j | 16 <= a < 1024 && 0 <= j < 1024 && !(a == e && j == i) ::
          Maps(n, a, j) == Maps(m, a, j) && View(n, a, j) == View(m, a, j))
    && (forall a, j | 16 <= a < 1024 && 0 <= j < 1024 && !(a == e && j == i) && Maps(m, a, j) ::
          Pte(n, a, j) == if a == d && j == i then ReadOnly(Pte(m, a, j)) else Pte(m, a, j))
    && Pte(n, e, i) == ReadOnly(Pte(m, d, i))
    && View(n, e, i) == View(m, d, i)
    && (forall f | 256 <= f < 4096 :: Count(n, f) == Count(m, f) + Bit(Names(m, d, i, f)))
  }

  lemma ShareCompose(m: Mem, p: Mem, n: Mem, d: nat, e: nat, i: nat)
    requires 16 <= d < 1024 && 16 <= e < 1024 && d != e && i < 1024
    requires Pde(m, e).present && Maps(m, d, i) && !Maps(m, e, i)
    requires Wrote(m, p, d, i, ReadOnly(Pte(m, d, i))) && OtherViews(m, p, d, i) && View(p, d, i) == View(m, d, i)
    requires Wrote(p, n, e, i, Pte(p, d, i)) && OtherViews(p, n, e, i) && View(n, e, i) == View(p, d, i)
    requires forall f | 256 <= f < 4096 ::
             Count(p, f) == Count(m, f) && Count(n, f) == Count(p, f) + Bit(Names(p, d, i, f))
    ensures Shared(m, n, d, e, i)
  {
    forall f | 256 <= f < 4096
      ensures Names(p, d, i, f) == Names(m, d, i, f)
    {
      assert Pde(p, d) == Pde(m, d);
    }
  }

  lemma PokeCommutes(m: Mem, x: nat, y: nat, w: Word, f: nat, c: Byte)
    requires x != y
    ensures SetCount(Poke(Poke(m, y, w), x, w), f, c) == SetCount(Poke(Poke(m, x, w), y, w), f, c)
  {
    assert Poke(Poke(m, y, w), x, w).ram == Poke(Poke(m, x, w), y, w).ram;
  }

  lemma ShareHigh(m: Mem, owned: set<nat>, d: nat, e: nat, i: nat)
    requires Inv(m, owned) && 16 <= d < 1024 && 16 <= e < 1024 && d != e && d % 16 == e % 16 && i < 1024
    requires Maps(m, d, i) && Pde(m, e).present && !Maps(m, e, i) && Pte(m, d, i).frame >= 256
    ensures var ro := ReadOnly(Pte(m, d, i));
            var p := Poke(m, PteIndex(m, d, i), ro);
            var n := SetCount(Poke(p, PteIndex(m, e, i), ro), ro.frame, (Count(m, ro.frame) + 1) % 256);
            Inv(n, owned) && Shared(m, n, d, e, i)
  {
    var ro := ReadOnly(Pte(m, d, i));
    var p := Poke(m, PteIndex(m, d, i), ro);
    ProtectStep(m, owned, d, i);
    assert PteIndex(p, e, i) == PteIndex(m, e, i) by {
      assert Pde(p, e) == Pde(m, e);
    }
    assert Pte(p, d, i) == ro && Maps(p, d, i) && !Maps(p, e, i) && Pde(p, e).present by {
      assert Pde(p, d) == Pde(m, d) && Pde(p, e) == Pde(m, e);
    }
    DuplicateStep(p, owned, d, e, i);
    var n := SetCount(Poke(p, PteIndex(m, e, i), ro), ro.frame, (Count(m, ro.frame) + 1) % 256);
    ShareCompose(m, p, n, d, e, i);
  }

  lemma ShareLow(m: Mem, owned: set<nat>, d: nat, e: nat, i: nat)
    requires Inv(m, owned) && 16 <= d < 1024 && 16 <= e < 1024 && d != e && d % 16 == e % 16 && i < 1024
    requires Maps(m, d, i) && Pde(m, e).present && !Maps(m, e, i) && Pte(m, d, i).frame < 256
    ensures Pte(m, d, i) == ReadOnly(Pte(m, d, i))
    ensures var n := Poke(m, PteIndex(m, e, i), Pte(m, d, i));
            Inv(n, owned) && Shared(m, n, d, e, i)
  {
    DuplicateStep(m, owned, d, e, i);
    var n := Poke(m, PteIndex(m, e, i), Pte(m, d, i));
    assert OtherViews(m, m, d, i);
    ShareCompose(m, m, n, d, e, i);
  }

  /** The loop body of copy_page_tables on a mapped entry of a user task. */
  lemma ShareStep(m: Mem, owned: set<nat>, d: nat, e: nat, i: nat)
    requires Inv(m, owned) && 16 <= d < 1024 && 16 <= e < 1024 && d != e && d % 16 == e % 16 && i < 1024
    requires Maps(m, d, i) && Pde(m, e).present && !Maps(m, e, i)
    ensures var n := CopyEntry(m, PteIndex(m, d, i), PteIndex(m, e, i));
            Inv(n, owned) && Shared(m, n, d, e, i)
  {
    if Pte(m, d, i).frame < 256 {
      ShareLow(m, owned, d, e, i);
    } else {
      ShareHigh(m, owned, d, e, i);
      CopyEntryHigh(m, owned, d, e, i);
    }
  }

  lemma CopyEntryHigh(m: Mem, owned: set<nat>, d: nat, e: nat, i: nat)
    requires Inv(m, owned) && 16 <= d < 1024 && 16 <= e < 1024 && d != e && i < 1024
    requires Maps(m, d, i) && Pde(m, e).present && Pte(m, d, i).frame >= 256
    ensures var ro := ReadOnly(Pte(m, d, i));
            CopyEntry(m, PteIndex(m, d, i), PteIndex(m, e, i))
            == SetCount(Poke(Poke(m, PteIndex(m, d, i), ro), PteIndex(m, e, i), ro), ro.frame,
              (Count(m, ro.frame) + 1) % 256)
  {
    TableAlone(m, owned, d);
    var ro := ReadOnly(Pte(m, d, i));
    PokeCommutes(m, PteIndex(m, d, i), PteIndex(m, e, i), ro, ro.frame, (Count(m, ro.frame) + 1) % 256);
  }

  /** The loop body of copy_page_tables on one of the first 160 entries of the kernel image:
      the child sees the image frame itself, read-only. */
  lemma ShareImageStep(m: Mem, owned: set<nat>, e: nat, i: nat)
    requires Inv(m, owned) && 16 <= e < 1024 && i < 160 && Pde(m, e).present && !Maps(m, e, i)
    ensures PteIndex(m, 0, i) == 1024 + i
    ensures var n := CopyEntry(m, 1024 + i, PteIndex(m, e, i));
            && Inv(n, owned) && Wrote(m, n, e, i, ReadOnly(Grant(i))) && OtherViews(m, n, e, i)
            && View(n, e, i) == Low(i)
            && (forall f | 256 <= f < 4096 :: Count(n, f) == Count(m, f))
  {
    assert Pde(m, 0) == Grant(1);
    assert Peek(m, 1024 + i) == Grant(i);
    var ro := ReadOnly(Grant(i));
    var n := Poke(m, PteIndex(m, e, i), ro);
    PokeOthers(m, n, owned, e, i, ro);
    WroteKeeps(m, n, e, i, ro, owned, owned);
  }

  // ---------- one directory entry ----------

  /** Every page of every task looks the same. */
  ghost predicate SameViews(m: Mem, n: Mem) {
    && SameImage(m, n)
    && (forall d, i | 16 <= d < 1024 && 0 <= i < 1024 ::
       Maps(n, d, i) == Maps(m, d, i) && View(n, d, i) == View(m, d, i))
  }

  lemma DirViews(m: Mem, n: Mem, owned: set<nat>, d: nat, w: Word)
    requires Inv(m, owned) && WroteDir(m, n, d, w)
    requires forall x | 1024 <= x < 4096 * 1024 :: Peek(n, x) == Peek(m, x)
    ensures SameViews(m, n)
    ensures forall e | 0 <= e < 1024 && e != d :: Pde(n, e) == Pde(m, e)
  {
    forall e | 0 <= e < 1024 && e != d
      ensures Pde(n, e) == Pde(m, e)
    {
      assert Peek(n, e) == Peek(m, e);
    }
    forall e, i | 16 <= e < 1024 && 0 <= i < 1024
      ensures Maps(n, e, i) == Maps(m, e, i) && View(n, e, i) == View(m, e, i)
    {
      if e == d {
        assert !Maps(m, d, i) && !Maps(n, d, i);
      } else if Maps(m, e, i) {
        if Pte(m, e, i).frame >= 256 {
          assert PageWords(n, Pte(m, e, i).frame) == PageWords(m, Pte(m, e, i).frame);
        }
      }
    }
  }

  /** `*to_dir = to_page_table | 7` with a fresh table. */
  lemma InstallTable(m: Mem, owned: set<nat>, d: nat, g: nat)
    requires Inv(m, owned) && 16 <= d < 1024 && !Pde(m, d).present && g in owned
    requires forall x | g * 1024 <= x < g * 1024 + 1024 :: Peek(m, x) == ZERO
    ensures var n := Poke(m, d, Grant(g));
            && Inv(n, owned - {g}) && SameViews(m, n) && Pde(n, d) == Grant(g)
            && (forall e | 0 <= e < 1024 && e != d :: Pde(n, e) == Pde(m, e))
            && (forall e, j | 16 <= e < 1024 && 0 <= j < 1024 && Maps(m, e, j) :: Pte(n, e, j) == Pte(m, e, j))
            && (forall f :: Count(n, f) == Count(m, f))
  {
    var n := Poke(m, d, Grant(g));
    assert forall x: nat | x != d :: Peek(n, x) == Peek(m, x);
    assert WroteDir(m, n, d, Grant(g)) by {
      forall e, j | 16 <= e < 1024 && 0 <= j < 1024 && e != d && Pde(m, e).present
        ensures Pte(n, e, j) == Pte(m, e, j)
      {
        assert Pde(n, e) == Pde(m, e);
      }
    }
    WroteDirKeeps(m, n, d, Grant(g), owned, owned - {g});
    DirViews(m, n, owned, d, Grant(g));
  }

  /** A fresh empty table for directory entry d: no page of any task changes. */
  ghost predicate FreshTable(m: Mem, n: Mem, d: nat, g: nat) {
    && 256 <= g < 4096 && Pde(n, d) == Grant(g)
    && SameViews(m, n)
    && Count(m, g) == 0 && Count(n, g) == 1
    && (forall f | 256 <= f < 4096 && f != g :: Count(n, f) == Count(m, f))
    && (forall e | 0 <= e < 1024 && e != d :: Pde(n, e) == Pde(m, e))
    && (forall e, j | 16 <= e < 1024 && 0 <= j < 1024 && Maps(m, e, j) :: Pte(n, e, j) == Pte(m, e, j))
    && (forall x: nat | x != d && (x < g * 1024 || g * 1024 + 1024 <= x) :: Peek(n, x) == Peek(m, x))
  }

  lemma AllocateTable(m: Mem, owned: set<nat>, d: nat)
    requires Inv(m, owned) && 16 <= d < 1024 && !Pde(m, d).present && GetFreePage(m).1 != 0
    ensures var (m1, g) := GetFreePage(m);
            g !in owned && Inv(Poke(m1, d, Grant(g)), owned) && FreshTable(m, Poke(m1, d, Grant(g)), d, g)
  {
    GetFreeEffect(m);
    var (m1, g) := GetFreePage(m);
    TookKeeps(m, m1, g, owned);
    TookViews(m, m1, g, owned);
    SameNames(m, m1);
    InstallTable(m1, owned + {g}, d, g);
    WithoutAdded(owned, g);
    var n := Poke(m1, d, Grant(g));
    assert forall x: nat | x != d :: Peek(n, x) == Peek(m1, x);
    TookThenInstalled(m, m1, n, d, g);
  }

  lemma WithoutAdded(owned: set<nat>, g: nat)
    requires g !in owned
    ensures owned + {g} - {g} == owned
  {
  }

  lemma TookThenInstalled(m: Mem, m1: Mem, n: Mem, d: nat, g: nat)
    requires 16 <= d < 1024 && Took(m, m1, g) && SameTables(m, m1) && SameViews(m1, n) && Pde(n, d) == Grant(g)
             && SameImage(m, m1)
    requires forall e, i | 16 <= e < 1024 && 0 <= i < 1024 ::
             Maps(m1, e, i) == Maps(m, e, i) && View(m1, e, i) == View(m, e, i)
    requires forall e | 0 <= e < 1024 :: Pde(m1, e) == Pde(m, e)
    requires forall e | 0 <= e < 1024 && e != d :: Pde(n, e) == Pde(m1, e)
    requires forall e, j | 16 <= e < 1024 && 0 <= j < 1024 && Maps(m1, e, j) :: Pte(n, e, j) == Pte(m1, e, j)
    requires forall f :: Count(n, f) == Count(m1, f)
    requires forall x: nat | x != d :: Peek(n, x) == Peek(m1, x)
    ensures FreshTable(m, n, d, g)
  {
  }

  /** The end of free_page_tables on one directory entry whose table is empty. */
  lemma RemoveTable(m: Mem, owned: set<nat>, d: nat)
    requires Inv(m, owned) && 16 <= d < 1024 && Pde(m, d).present
    requires forall i | 0 <= i < 1024 :: !Maps(m, d, i)
    ensures FreePage(m, Pde(m, d).frame * 4096).Done?
    ensures var n := Poke(FreePage(m, Pde(m, d).frame * 4096).value, d, ZERO);
            && Inv(n, owned) && SameViews(m, n) && Pde(n, d) == ZERO
            && (forall e | 0 <= e < 1024 && e != d :: Pde(n, e) == Pde(m, e))
            && (forall e, j | 16 <= e < 1024 && 0 <= j < 1024 && Maps(m, e, j) :: Pte(n, e, j) == Pte(m, e, j))
            && Dropped(m, n, d, 1024)
  {
    var t := Pde(m, d).frame;
    FreePageEffect(m, t);
    TableAlone(m, owned, d);
    var n := Poke(SetCount(m, t, 0), d, ZERO);
    assert forall x: nat | x != d :: Peek(n, x) == Peek(m, x);
    assert WroteDir(m, n, d, ZERO) by {
      forall e, j | 16 <= e < 1024 && 0 <= j < 1024 && e != d && Pde(m, e).present
        ensures Pte(n, e, j) == Pte(m, e, j)
      {
        assert Pde(n, e) == Pde(m, e);
      }
    }
    WroteDirKeeps(m, n, d, ZERO, owned, owned);
    DirViews(m, n, owned, d, ZERO);
  }
}
