/** What copy-on-write is for: tasks behave as if each had a private memory that fork
    duplicates whole. */
module CowRefinement {
  import opened Paging
  import opened Memory
  import opened CowInvariant
  import opened CowSteps
  import opened CowFaults
  import opened CowLoops
  import opened Kernel
  import opened KernelForks
  import opened KernelInvariant
  import opened KernelAccess
  import opened KernelRuns
  import opened VerifyArea

  // ---------- the abstract machine ----------

  /** `space[d][i]` is page i of the d-th 4MB of linear memory; task n owns d in 16n..16n+15.
      `image` is the kernel image above the page directory, which is constant. */
  datatype Abstract = Abstract(space: seq<seq<Page>>, image: seq<Word>)

  function ZeroDir(): (r: seq<Page>)
    ensures |r| == 1024 && forall i | 0 <= i < 1024 :: r[i] == Private(ZeroWords())
  {
    seq(1024, i requires 0 <= i < 1024 => Private(ZeroWords()))
  }

  /** Task 0 as fork copies it: 640KB of kernel image. */
  function ImageDir(): (r: seq<Page>)
    ensures |r| == 1024 && forall i | 0 <= i < 1024 :: r[i] == if i < 160 then Low(i) else Private(ZeroWords())
  {
    seq(1024, i requires 0 <= i < 1024 => if i < 160 then Low(i) else Private(ZeroWords()))
  }

  function DirView(m: Mem, d: nat): (r: seq<Page>)
    ensures |r| == 1024 && forall i | 0 <= i < 1024 :: r[i] == View(m, d, i)
  {
    seq(1024, i requires 0 <= i < 1024 => View(m, d, i))
  }

  function SpaceOf(m: Mem): (r: seq<seq<Page>>)
    ensures |r| == 1024
    ensures forall d | 0 <= d < 1024 ::
            r[d] == if d == 0 then ImageDir() else if d < 16 then ZeroDir() else DirView(m, d)
  {
    seq(1024, d requires 0 <= d < 1024 => if d == 0 then ImageDir() else if d < 16 then ZeroDir() else DirView(m, d))
  }

  function ImageOf(m: Mem): (r: seq<Word>)
    ensures |r| == 255 * 1024 && forall x | 0 <= x < 255 * 1024 :: r[x] == Peek(m, 1024 + x)
  {
    seq(255 * 1024, x requires 0 <= x < 255 * 1024 => Peek(m, 1024 + x))
  }

  function Abs(s: Sys): Abstract {
    Abstract(SpaceOf(s.mem), ImageOf(s.mem))
  }

  /** fork: the child's k directory entries become copies of the parent's. */
  function Duplicate(space: seq<seq<Page>>, parent: nat, child: nat, k: nat): (r: seq<seq<Page>>)
    requires |space| == 1024 && parent < 64 && child < 64 && k <= 16
    ensures |r| == 1024
    ensures forall d | 0 <= d < 1024 ::
              r[d] == if 16 * child <= d < 16 * child + k then space[16 * parent + (d - 16 * child)] else space[d]
  {
    seq(1024, d requires 0 <= d < 1024 =>
      if 16 * child <= d < 16 * child + k then space[16 * parent + (d - 16 * child)] else space[d])
  }

  /** exit: the task's memory is gone. */
  function Erase(space: seq<seq<Page>>, n: nat): (r: seq<seq<Page>>)
    requires |space| == 1024
    ensures |r| == 1024
    ensures forall d | 0 <= d < 1024 :: r[d] == if 16 * n <= d < 16 * n + 16 then ZeroDir() else space[d]
  {
    seq(1024, d requires 0 <= d < 1024 => if 16 * n <= d < 16 * n + 16 then ZeroDir() else space[d])
  }

  /** The words a page holds. Frame 0 is the page directory itself, whose words are not part
      of the abstract state. */
  ghost predicate Holds(a: Abstract, p: Page, words: seq<Word>) {
    && |words| == 1024
    && match p
       case Private(ws) => words == ws
       case Low(f) => 1 <= f < 256 && |a.image| == 255 * 1024 ==> forall o | 0 <= o < 1024 ::
         words[o] == a.image[(f - 1) * 1024 + o]
  }

  /** Storing one word in a task's private memory. */
  ghost predicate StoreIn(a: Abstract, b: Abstract, n: nat, off: nat, w: Word) {
    var d, i, o := 16 * n + off / 0x40_0000, off / 4096 % 1024, off / 4 % 1024;
    && |a.space| == 1024 && d < 1024 && |a.space[d]| == 1024
    && exists words ::
         Holds(a, a.space[d][i], words) && b.space == a.space[d := a.space[d][i := Private(words[o := w])]]
  }

  /** Reading one word of a task's private memory. */
  ghost predicate LoadFrom(a: Abstract, n: nat, off: nat, r: Outcome) {
    var d, i, o := 16 * n + off / 0x40_0000, off / 4096 % 1024, off / 4 % 1024;
    && |a.space| == 1024 && d < 1024 && |a.space[d]| == 1024
    && r.Read? && exists words :: Holds(a, a.space[d][i], words) && r.w == words[o]
  }

  /** verify_area: the pages first..next-1 become private and hold the words they held. */
  ghost predicate Settles(a: Abstract, b: Abstract, first: nat, next: nat) {
    && |a.space| == 1024 == |b.space|
    && (forall d | 0 <= d < 16 :: b.space[d] == a.space[d])
    && (forall d | 16 <= d < 1024 :: |a.space[d]| == 1024 == |b.space[d]|)
    && (forall d, i | 16 <= d < 1024 && 0 <= i < 1024 :: SettlesAt(a, b, first, next, d, i))
  }

  ghost predicate SettlesAt(a: Abstract, b: Abstract, first: nat, next: nat, d: nat, i: nat)
    requires |a.space| == 1024 == |b.space| && d < 1024 && |a.space[d]| == 1024 == |b.space[d]| && i < 1024
  {
    if first <= d * 1024 + i < next then exists words ::
      Holds(a, a.space[d][i], words) && b.space[d][i] == Private(words)
    else b.space[d][i] == a.space[d][i]
  }

  /** The abstract machine: no faults, no sharing, no frames. */
  ghost predicate AbstractStep(a: Abstract, e: Event, o: Outcome, k: nat, b: Abstract) {
    && b.image == a.image && |a.space| == 1024
    && match e
       case EvFork(n) =>
         if o.Child? then n < 64 && o.slot < 64 && k <= 16 && b.space == Duplicate(a.space, n, o.slot, k)
           else b.space == a.space
       case EvExit(n) => b.space == Erase(a.space, n)
       case EvRelease(n) => b.space == a.space
       case EvLoad(n, off) => b.space == a.space && LoadFrom(a, n, off, o)
       case EvStore(n, off, w) => StoreIn(a, b, n, off, w)
       case EvVerify(n, off, size) =>
         var first := (Base(n) + off) / 4096;
         Settles(a, b, first, first + PageCount(off, size))
  }

  // ---------- refinement ----------

  lemma SameImageOf(m: Mem, n: Mem)
    requires SameImage(m, n)
    ensures ImageOf(n) == ImageOf(m)
  {
  }

  lemma SameSpace(m: Mem, n: Mem)
    requires forall d, i | 16 <= d < 1024 && 0 <= i < 1024 :: View(n, d, i) == View(m, d, i)
    ensures SpaceOf(n) == SpaceOf(m)
  {
    forall d | 16 <= d < 1024
      ensures DirView(n, d) == DirView(m, d)
    {
    }
  }

  lemma DuplicateViews(s: Sys, u: Sys, n: nat, c: nat, k: nat)
    requires n < 64 && 1 <= c < 64 && k <= 16 && (n == 0 ==> k == 1)
    requires Forked(s.mem, u.mem, 16 * c, 16 * c + k) && ChildSees(s.mem, u.mem, n, c, k)
    ensures SpaceOf(u.mem) == Duplicate(SpaceOf(s.mem), n, c, k)
  {
    var a, b := SpaceOf(u.mem), SpaceOf(s.mem);
    forall d | 0 <= d < 1024
      ensures a[d] == Duplicate(b, n, c, k)[d]
    {
      if 16 * c <= d < 16 * c + k {
        ChildDirView(s, u, n, c, k, d);
      } else if d >= 16 {
        KeptDirView(s, u, 16 * c, 16 * c + k, d);
      }
      DuplicateAt(a, b, n, c, k, d);
    }
  }

  lemma DuplicateAt(a: seq<seq<Page>>, b: seq<seq<Page>>, n: nat, c: nat, k: nat, d: nat)
    requires |a| == 1024 == |b| && n < 64 && c < 64 && k <= 16 && d < 1024
    requires a[d] == if 16 * c <= d < 16 * c + k then b[16 * n + (d - 16 * c)] else b[d]
    ensures a[d] == Duplicate(b, n, c, k)[d]
  {
  }

  lemma ChildDirView(s: Sys, u: Sys, n: nat, c: nat, k: nat, d: nat)
    requires n < 64 && 1 <= c < 64 && k <= 16 && (n == 0 ==> k == 1) && 16 * c <= d < 16 * c + k
    requires ChildSees(s.mem, u.mem, n, c, k)
    ensures SpaceOf(u.mem)[d] == SpaceOf(s.mem)[16 * n + (d - 16 * c)]
  {
    if n == 0 {
      assert DirView(u.mem, d) == ImageDir();
    } else {
      assert CopyAt(s.mem, u.mem, 16 * n, 16 * c, d);
    }
  }

  lemma KeptDirView(s: Sys, u: Sys, lo: nat, hi: nat, d: nat)
    requires Forked(s.mem, u.mem, lo, hi) && 16 <= d < 1024 && !(lo <= d < hi)
    ensures SpaceOf(u.mem)[d] == SpaceOf(s.mem)[d]
  {
    assert ProtectedDir(s.mem, u.mem, d);
  }

  lemma EraseViews(s: Sys, u: Sys, n: nat)
    requires 1 <= n < 64 && TornDown(s.mem, u.mem, n)
    ensures SpaceOf(u.mem) == Erase(SpaceOf(s.mem), n)
  {
    forall d | 16 <= d < 1024
      ensures DirView(u.mem, d) == Erase(SpaceOf(s.mem), n)[d]
    {
      if 16 * n <= d < 16 * n + 16 {
        assert DirView(u.mem, d) == ZeroDir();
      } else {
        assert SameDir(s.mem, u.mem, d);
        assert DirView(u.mem, d) == DirView(s.mem, d);
      }
    }
  }

  lemma ReleaseViews(s: Sys, u: Sys, n: nat)
    requires SysInv(s) && 1 <= n < 64 && !Alive(s, n) && TornDown(s.mem, u.mem, n)
    ensures SpaceOf(u.mem) == SpaceOf(s.mem)
  {
    RangeAbsent(s, n);
    forall d, i | 16 <= d < 1024 && 0 <= i < 1024
      ensures View(u.mem, d, i) == View(s.mem, d, i)
    {
      if !(16 * n <= d < 16 * n + 16) {
        assert SameDir(s.mem, u.mem, d);
      }
    }
    SameSpace(s.mem, u.mem);
  }

  lemma HoldsContents(s: Sys, d: nat, i: nat)
    requires 16 <= d < 1024 && i < 1024
    ensures Holds(Abs(s), View(s.mem, d, i), Contents(s.mem, d, i))
  {
    var m := s.mem;
    if Maps(m, d, i) && 1 <= Pte(m, d, i).frame < 256 {
      var f: nat := Pte(m, d, i).frame;
      forall o | 0 <= o < 1024
        ensures Contents(m, d, i)[o] == ImageOf(m)[(f - 1) * 1024 + o]
      {
        assert 1024 + ((f - 1) * 1024 + o) == f * 1024 + o;
      }
    }
  }

  lemma StoreViews(s: Sys, u: Sys, n: nat, off: nat, w: Word)
    requires SysInv(s) && 1 <= n < 64 && off < s.limit && StoredAt(s.mem, u.mem, n, off, w, true)
    ensures StoreIn(Abs(s), Abs(u), n, off, w)
  {
    Where(n, off, s.limit);
    var d, i, o := 16 * n + off / 0x40_0000, off / 4096 % 1024, off / 4 % 1024;
    assert DirOf(Base(n) + off) == d && TabOf(Base(n) + off) == i;
    HoldsContents(s, d, i);
    var words := Contents(s.mem, d, i);
    StoredSpace(s.mem, u.mem, d, i, Private(words[o := w]));
  }

  lemma StoredSpace(m: Mem, n: Mem, d: nat, i: nat, p: Page)
    requires Served(m, n, d, i) && 16 <= d < 1024 && i < 1024 && View(n, d, i) == p
    ensures SpaceOf(n) == SpaceOf(m)[d := SpaceOf(m)[d][i := p]]
  {
    var a := SpaceOf(m);
    var b := a[d := a[d][i := p]];
    forall e | 0 <= e < 1024
      ensures SpaceOf(n)[e] == b[e]
    {
      if e >= 16 {
        assert DirView(n, e) == b[e];
      }
    }
  }

  lemma EffectImage(s: Sys, e: Event, copies: bool, u: Sys, o: Outcome)
    requires Effect(s, e, copies, u, o)
    ensures SameImage(s.mem, u.mem)
  {
  }

  /** Every step of the system whose un_wp_page copies, as documented, is a step of the
      abstract machine. */
  lemma StepRefines(s: Sys, e: Event, u: Sys, o: Outcome)
    requires SysInv(s) && StepsTo(s, e, true, u, o)
    ensures AbstractStep(Abs(s), e, o, DirCount(s.limit), Abs(u))
  {
    StepEffect(s, e, true, u, o);
    EffectImage(s, e, true, u, o);
    SameImageOf(s.mem, u.mem);
    match e
    case EvFork(n) => ForkRefines(s, n, u, o);
    case EvExit(n) => ExitRefines(s, n, u, o);
    case EvRelease(n) => ReleaseRefines(s, n, u, o);
    case EvLoad(n, off) => LoadRefines(s, n, off, u, o);
    case EvStore(n, off, w) => StoreRefines(s, n, off, w, u, o);
    case EvVerify(n, off, size) => VerifyRefines(s, n, off, size, u, o);
  }

  lemma ForkRefines(s: Sys, n: nat, u: Sys, o: Outcome)
    requires SysInv(s) && Enabled(s, EvFork(n)) && Effect(s, EvFork(n), true, u, o) && ImageOf(u.mem) == ImageOf(s.mem)
    ensures AbstractStep(Abs(s), EvFork(n), o, DirCount(s.limit), Abs(u))
  {
    if o.Child? {
      DuplicateViews(s, u, n, o.slot, DirCount(s.limit));
    } else {
      SameSpace(s.mem, u.mem);
    }
  }

  lemma ExitRefines(s: Sys, n: nat, u: Sys, o: Outcome)
    requires Effect(s, EvExit(n), true, u, o) && 1 <= n < 64 && ImageOf(u.mem) == ImageOf(s.mem)
    ensures AbstractStep(Abs(s), EvExit(n), o, DirCount(s.limit), Abs(u))
  {
    EraseViews(s, u, n);
  }

  lemma ReleaseRefines(s: Sys, n: nat, u: Sys, o: Outcome)
    requires SysInv(s) && Effect(s, EvRelease(n), true, u, o) && 1 <= n < 64 && !Alive(s, n)
    requires ImageOf(u.mem) == ImageOf(s.mem)
    ensures AbstractStep(Abs(s), EvRelease(n), o, DirCount(s.limit), Abs(u))
  {
    ReleaseViews(s, u, n);
  }

  lemma StoreRefines(s: Sys, n: nat, off: nat, w: Word, u: Sys, o: Outcome)
    requires SysInv(s) && 1 <= n < 64 && off < s.limit && Effect(s, EvStore(n, off, w), true, u, o)
    requires ImageOf(u.mem) == ImageOf(s.mem)
    ensures AbstractStep(Abs(s), EvStore(n, off, w), o, DirCount(s.limit), Abs(u))
  {
    StoreViews(s, u, n, off, w);
  }

  lemma VerifyRefines(s: Sys, n: nat, off: nat, size: nat, u: Sys, o: Outcome)
    requires SysInv(u) && Base(n) + off + size <= 0x1_0000_0000 && 1 <= size <= 0x3ff_f000
    requires Effect(s, EvVerify(n, off, size), true, u, o) && ImageOf(u.mem) == ImageOf(s.mem)
    ensures AbstractStep(Abs(s), EvVerify(n, off, size), o, DirCount(s.limit), Abs(u))
  {
    VerifyViews(s, u, n, off, size);
  }

  lemma LoadRefines(s: Sys, n: nat, off: nat, u: Sys, o: Outcome)
    requires SysInv(s) && Enabled(s, EvLoad(n, off)) && Effect(s, EvLoad(n, off), true, u, o)
    requires ImageOf(u.mem) == ImageOf(s.mem)
    ensures AbstractStep(Abs(s), EvLoad(n, off), o, DirCount(s.limit), Abs(u))
  {
    LoadViews(s, u, n, off, o.w);
    LoadReads(s, u, n, off, o);
  }

  lemma VerifyViews(s: Sys, u: Sys, n: nat, off: nat, size: nat)
    requires SysInv(u) && Base(n) + off + size <= 0x1_0000_0000 && 1 <= size <= 0x3ff_f000
    requires VerifiedAt(s.mem, u.mem, n, off, size, true)
    ensures var first := (Base(n) + off) / 4096; Settles(Abs(s), Abs(u), first, first + PageCount(off, size))
  {
    var first := (Base(n) + off) / 4096;
    var next := first + PageCount(off, size);
    var a, b := Abs(s), Abs(u);
    forall d, i | 16 <= d < 1024 && 0 <= i < 1024
      ensures SettlesAt(a, b, first, next, d, i)
    {
      VerifyViewAt(s, u, first, next, d, i, d * 1024 + i);
    }
  }

  lemma VerifyViewAt(s: Sys, u: Sys, first: nat, next: nat, d: nat, i: nat, page: nat)
    requires SysInv(u) && Swept(s.mem, u.mem, first, next, true) && next <= first + 16384
    requires 16 <= d < 1024 && i < 1024 && page == d * 1024 + i
    ensures SettlesAt(Abs(s), Abs(u), first, next, d, i)
  {
    PageOf(d, i);
    if first <= page < next {
      WritableHigh(u, d, i);
      PageSettles(s.mem, u.mem, first, next, d, i, page);
      HoldsContents(s, d, i);
      assert Abs(u).space[d][i] == Private(Contents(s.mem, d, i));
    } else {
      OutsideSwept(s.mem, u.mem, first, next, true, page, d, i);
    }
  }

  lemma PageOf(d: nat, i: nat)
    requires i < 1024
    ensures (d * 1024 + i) / 1024 == d && (d * 1024 + i) % 1024 == i
  {
  }

  lemma WritableHigh(u: Sys, d: nat, i: nat)
    requires SysInv(u) && 16 <= d < 1024 && i < 1024
    ensures Maps(u.mem, d, i) && Pte(u.mem, d, i).writable ==> Pte(u.mem, d, i).frame >= 256
  {
  }

  lemma PageSettles(m: Mem, u: Mem, first: nat, next: nat, d: nat, i: nat, page: nat)
    requires d == page / 1024 && i == page % 1024 && first <= page < next
    requires Swept(m, u, first, next, true) && next <= first + 16384
    requires Maps(u, d, i) && Pte(u, d, i).writable ==> Pte(u, d, i).frame >= 256
    ensures View(u, d, i) == Private(Contents(m, d, i))
  {
    assert Ready(m, u, page) && VerifyArea.Holds(m, u, page, true);
    ReadyView(m, u, d, i);
  }

  lemma ReadyView(m: Mem, u: Mem, d: nat, i: nat)
    requires Maps(u, d, i) == Maps(m, d, i) && (Maps(m, d, i) ==> Pte(u, d, i).frame >= 256)
    requires Contents(u, d, i) == Contents(m, d, i)
    ensures View(u, d, i) == Private(Contents(m, d, i))
  {
  }

  lemma LoadViews(s: Sys, u: Sys, n: nat, off: nat, w: Word)
    requires Loaded(s.mem, u.mem, n, off, w)
    ensures SpaceOf(u.mem) == SpaceOf(s.mem)
  {
    SameSpace(s.mem, u.mem);
  }

  lemma LoadReads(s: Sys, u: Sys, n: nat, off: nat, o: Outcome)
    requires SysInv(s) && 1 <= n < 64 && off < s.limit && o.Read? && Loaded(s.mem, u.mem, n, off, o.w)
    requires SpaceOf(u.mem) == SpaceOf(s.mem) && ImageOf(u.mem) == ImageOf(s.mem)
    ensures LoadFrom(Abs(s), n, off, o)
  {
    Where(n, off, s.limit);
    var d, i := 16 * n + off / 0x40_0000, off / 4096 % 1024;
    assert DirOf(Base(n) + off) == d && TabOf(Base(n) + off) == i;
    HoldsContents(u, d, i);
    assert Abs(u) == Abs(s);
    assert Abs(s).space[d][i] == View(s.mem, d, i) == View(u.mem, d, i);
  }

  /** Every run of that system, seen through Abs, is a run of the abstract machine. */
  lemma RunRefines(t: Trace, k: nat)
    requires IsRun(t, true) && SysInv(t.states[0]) && k < |t.events|
    ensures AbstractStep(Abs(t.states[k]), t.events[k], t.outcomes[k], DirCount(t.states[k].limit),
            Abs(t.states[k + 1]))
  {
    RunKeeps(t, true, k);
    assert StepsTo(t.states[k], t.events[k], true, t.states[k + 1], t.outcomes[k]);
    StepRefines(t.states[k], t.events[k], t.states[k + 1], t.outcomes[k]);
  }

  // ---------- isolation, for either version ----------

  /** The pages a step may change: those of the task that acts, and for verify_area only those
      of its area, wherever it lies. */
  ghost predicate Reaches(e: Event, d: nat, i: nat) {
    match e
    case EvVerify(n, off, size) => InArea(Base(n), off, size, d * 1024 + i)
    case _ => d / 16 == e.n
  }

  /** No step of one task changes the pages of any other task, except that fork gives the child
      its memory, and that verify_area reaches the pages of an area that leaves the segment. This
      holds of the literal un_wp_page as well. The words another task reads are unchanged too,
      with one exception: a page that is frame 0 is the page directory, and changes with it. */
  lemma Isolation(s: Sys, e: Event, copies: bool, u: Sys, o: Outcome, d: nat, i: nat)
    requires SysInv(s) && StepsTo(s, e, copies, u, o) && 16 <= d < 1024 && i < 1024
    requires !Reaches(e, d, i) && !(o.Child? && d / 16 == o.slot)
    ensures Maps(u.mem, d, i) == Maps(s.mem, d, i) && View(u.mem, d, i) == View(s.mem, d, i)
    ensures Contents(u.mem, d, i) == Contents(s.mem, d, i)
            <==> View(s.mem, d, i) != Low(0) || forall x | 0 <= x < 1024 :: Pde(u.mem, x) == Pde(s.mem, x)
  {
    StepEffect(s, e, copies, u, o);
    IsolatedView(s, e, copies, u, o, d, i);
    EffectImage(s, e, copies, u, o);
    if View(s.mem, d, i) != Low(0) {
      ViewContents(s.mem, u.mem, d, i);
    } else {
      forall x | 0 <= x < 1024
        ensures Contents(s.mem, d, i)[x] == Pde(s.mem, x) && Contents(u.mem, d, i)[x] == Pde(u.mem, x)
      {
        DirectoryVisible(s.mem, d, i, x);
        DirectoryVisible(u.mem, d, i, x);
      }
    }
  }

  lemma ViewContents(m: Mem, n: Mem, d: nat, i: nat)
    requires SameImage(m, n) && Maps(n, d, i) == Maps(m, d, i) && View(n, d, i) == View(m, d, i)
             && View(m, d, i) != Low(0)
    ensures Contents(n, d, i) == Contents(m, d, i)
  {
    if Maps(m, d, i) && Pte(m, d, i).frame < 256 {
      var f: nat := Pte(m, d, i).frame;
      forall o | 0 <= o < 1024
        ensures PageWords(n, f)[o] == PageWords(m, f)[o]
      {
        assert 1024 <= f * 1024 + o < 256 * 1024;
      }
      assert PageWords(n, f) == PageWords(m, f);
    }
  }

  lemma IsolatedView(s: Sys, e: Event, copies: bool, u: Sys, o: Outcome, d: nat, i: nat)
    requires |s.task| == 64 && s.limit <= 0x400_0000 && Enabled(s, e) && Effect(s, e, copies, u, o)
    requires 16 <= d < 1024 && i < 1024
    requires !Reaches(e, d, i) && !(o.Child? && d / 16 == o.slot)
    ensures Maps(u.mem, d, i) == Maps(s.mem, d, i) && View(u.mem, d, i) == View(s.mem, d, i)
  {
    match e
    case EvFork(n) => ForkIsolated(s, n, copies, u, o, d, i);
    case EvExit(n) => TornIsolated(s.mem, u.mem, n, d, i);
    case EvRelease(n) => TornIsolated(s.mem, u.mem, n, d, i);
    case EvLoad(n, off) => LoadIsolated(s, n, off, copies, u, o, d, i);
    case EvStore(n, off, w) => StoreIsolated(s, n, off, w, copies, u, o, d, i);
    case EvVerify(n, off, size) => VerifyIsolated(s.mem, u.mem, n, off, size, copies, d, i, d * 1024 + i);
  }

  lemma ForkIsolated(s: Sys, n: nat, copies: bool, u: Sys, o: Outcome, d: nat, i: nat)
    requires s.limit <= 0x400_0000 && Effect(s, EvFork(n), copies, u, o)
    requires 16 <= d < 1024 && i < 1024 && !(o.Child? && d / 16 == o.slot)
    ensures Maps(u.mem, d, i) == Maps(s.mem, d, i) && View(u.mem, d, i) == View(s.mem, d, i)
  {
    if o.Child? {
      assert ProtectedDir(s.mem, u.mem, d);
    }
  }

  lemma TornIsolated(m: Mem, u: Mem, n: nat, d: nat, i: nat)
    requires TornDown(m, u, n) && 16 <= d < 1024 && i < 1024 && d / 16 != n
    ensures Maps(u, d, i) == Maps(m, d, i) && View(u, d, i) == View(m, d, i)
  {
    assert SameDir(m, u, d);
  }

  lemma LoadIsolated(s: Sys, n: nat, off: nat, copies: bool, u: Sys, o: Outcome, d: nat, i: nat)
    requires Effect(s, EvLoad(n, off), copies, u, o) && 1 <= n < 64 && off < s.limit <= 0x400_0000
    requires 16 <= d < 1024 && i < 1024 && d / 16 != n
    ensures Maps(u.mem, d, i) == Maps(s.mem, d, i) && View(u.mem, d, i) == View(s.mem, d, i)
  {
    Where(n, off, s.limit);
  }

  lemma StoreIsolated(s: Sys, n: nat, off: nat, w: Word, copies: bool, u: Sys, o: Outcome, d: nat, i: nat)
    requires Effect(s, EvStore(n, off, w), copies, u, o) && 1 <= n < 64 && off < s.limit <= 0x400_0000
    requires 16 <= d < 1024 && i < 1024 && d / 16 != n
    ensures Maps(u.mem, d, i) == Maps(s.mem, d, i) && View(u.mem, d, i) == View(s.mem, d, i)
  {
    Where(n, off, s.limit);
  }

  lemma VerifyIsolated(m: Mem, u: Mem, n: nat, off: nat, size: nat, copies: bool, d: nat, i: nat, page: nat)
    requires VerifiedAt(m, u, n, off, size, copies) && 1 <= size && 16 <= d < 1024 && i < 1024 && page == d * 1024 + i
    requires !InArea(Base(n), off, size, page)
    ensures Maps(u, d, i) == Maps(m, d, i) && View(u, d, i) == View(m, d, i)
  {
    AreaIs(Base(n), off, size, page);
    PageOf(d, i);
    var first := (Base(n) + off) / 4096;
    OutsideSwept(m, u, first, first + PageCount(off, size), copies, page, d, i);
  }

  lemma OutsideSwept(m: Mem, u: Mem, first: nat, next: nat, copies: bool, page: nat, d: nat, i: nat)
    requires Swept(m, u, first, next, copies) && !(first <= page < next) && 16384 <= page < 1048576
    requires d == page / 1024 && i == page % 1024
    ensures Maps(u, d, i) == Maps(m, d, i) && View(u, d, i) == View(m, d, i)
  {
    assert Untouched(m, u, page);
  }

  /** A task that maps frame 0, as every child of task 0 does at page 0, reads the directory. */
  lemma DirectoryVisible(m: Mem, d: nat, i: nat, e: nat)
    requires 16 <= d < 1024 && i < 1024 && View(m, d, i) == Low(0) && e < 1024
    ensures Contents(m, d, i)[e] == Pde(m, e)
  {
  }

  // ---------- what the literal un_wp_page gets wrong ----------

  /** A store keeps the rest of the page exactly when the page needs no replacement, or the
      version copies, or the page holds nothing but zeros beside the stored word. */
  lemma StorePreserves(s: Sys, n: nat, off: nat, w: Word, copies: bool, u: Sys)
    requires SysInv(s) && StepsTo(s, EvStore(n, off, w), copies, u, Ok)
    ensures var d, i, o := DirOf(Base(n) + off), TabOf(Base(n) + off), off / 4 % 1024;
            View(u.mem, d, i) == Private(Contents(s.mem, d, i)[o := w])
            <==> copies || !Replaced(s.mem, d, i) || Contents(s.mem, d, i)[o := ZERO] == ZeroWords()
  {
    StepEffect(s, EvStore(n, off, w), copies, u, Ok);
    Where(n, off, s.limit);
    var d, i, o := DirOf(Base(n) + off), TabOf(Base(n) + off), off / 4 % 1024;
    SameBesides(Contents(s.mem, d, i), o, w);
  }

  lemma SameBesides(c: seq<Word>, o: nat, w: Word)
    requires |c| == 1024 && o < 1024
    ensures ZeroWords()[o := w] == c[o := w] <==> c[o := ZERO] == ZeroWords()
  {
    assert ZeroWords()[o := ZERO] == ZeroWords();
    if ZeroWords()[o := w] == c[o := w] {
      assert c[o := ZERO] == c[o := w][o := ZERO];
      assert ZeroWords()[o := w][o := ZERO] == ZeroWords()[o := ZERO];
    }
    if c[o := ZERO] == ZeroWords() {
      assert c[o := w] == c[o := ZERO][o := w];
    }
  }

  /** The failing case at work: a child that shares the kernel image stores into its page 1,
      image frame 1, whose second word is not zero. The literal body loses that word. */
  lemma LiteralLosesImage(s: Sys, c: nat, w: Word, u: Sys)
    requires SysInv(s) && 1 <= c && Alive(s, c) && 4096 < s.limit && ImageAt(s.mem, 16 * c)
    requires StepsTo(s, EvStore(c, 4096, w), false, u, Ok)
    ensures Contents(s.mem, 16 * c, 1)[1] == Grant(1) && Contents(u.mem, 16 * c, 1)[1] == ZERO
  {
    StepEffect(s, EvStore(c, 4096, w), false, u, Ok);
    Where(c, 4096, s.limit);
    ImagePageOne(s, c);
    StoredOnPageOne(s.mem, u.mem, c, w);
    ViewWords(u.mem, 16 * c, 1, ZeroWords()[0 := w]);
  }

  lemma StoredOnPageOne(m: Mem, n: Mem, c: nat, w: Word)
    requires 1 <= c < 64 && StoredAt(m, n, c, 4096, w, false)
    ensures Stored(m, n, 16 * c, 1, 0, w, false)
  {
    var a := Base(c) + 4096;
    assert a / 0x40_0000 == 16 * c;
    assert a / 4096 == 16384 * c + 1;
    assert DirOf(a) == 16 * c && TabOf(a) == 1;
  }

  lemma ViewWords(m: Mem, d: nat, i: nat, words: seq<Word>)
    requires View(m, d, i) == Private(words)
    ensures Contents(m, d, i) == words
  {
  }

  lemma ImagePageOne(s: Sys, c: nat)
    requires SysInv(s) && 1 <= c < 64 && ImageAt(s.mem, 16 * c)
    ensures Replaced(s.mem, 16 * c, 1) && Contents(s.mem, 16 * c, 1)[1] == Grant(1)
  {
    var m := s.mem;
    assert View(m, 16 * c, 1) == Low(1) && Maps(m, 16 * c, 1);
    assert Peek(m, 1025) == Grant(1);
  }
}
