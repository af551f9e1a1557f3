/** do_signal on the copy-on-write memory: what verify_area and the put_fs_long calls make of the
    user stack is what `Signals` says, with the pages verify_area loses given by the page tables. */
module SignalMemory {
  import opened Paging
  import opened Memory
  import opened CowInvariant
  import opened CowSteps
  import opened CowFaults
  import opened CowLoops
  import opened Kernel
  import opened KernelInvariant
  import opened KernelAccess
  import opened KernelRuns
  import opened VerifyArea
  import opened KernelStore
  import G = Signals

  type Stack = map<int, int>

  /** The directory and table entry of the page of task n at user address a. */
  function DirAt(n: nat, a: nat): nat {
    16 * n + a / 0x40_0000
  }

  function TabAt(a: nat): nat {
    a / 4096 % 1024
  }

  /** The word task n reads at address a of its segment. */
  function UserWord(m: Mem, n: nat, a: nat): nat {
    Value(Contents(m, DirAt(n, a), TabAt(a))[a / 4 % 1024])
  }

  predicate Aligned(a: int) {
    0 <= a < 0x400_0000 && a % 4 == 0
  }

  /** The map `stack` is the user memory of task n. */
  ghost predicate StackIs(stack: Stack, m: Mem, n: nat) {
    forall a | Aligned(a) :: G.Load(stack, a) == UserWord(m, n, a)
  }

  /** The pages of task n, by number, whose contents un_wp_page does not keep. */
  ghost function Lost(m: Mem, n: nat, copies: bool): (r: set<int>)
    ensures forall p :: p in r <==> 0 <= p < 16384 && !copies && Replaced(m, 16 * n + p / 1024, p % 1024)
  {
    LostBelow(m, n, copies, 16384)
  }

  ghost function LostBelow(m: Mem, n: nat, copies: bool, k: nat): (r: set<int>)
    ensures forall p :: p in r <==> 0 <= p < k && !copies && Replaced(m, 16 * n + p / 1024, p % 1024)
  {
    if k == 0 then {}
    else
      LostBelow(m, n, copies, k - 1)
      + if !copies && Replaced(m, 16 * n + (k - 1) / 1024, (k - 1) % 1024) then {k - 1} else {}
  }

  /** The documented un_wp_page loses nothing. */
  lemma CopyLosesNothing(m: Mem, n: nat)
    ensures Lost(m, n, true) == {}
  {
  }

  // ---------- verify_area ----------

  lemma PageAt(n: nat, a: nat, q: nat)
    requires a < 0x400_0000 && q == 16384 * n + a / 4096
    ensures q / 1024 == DirAt(n, a) && q % 1024 == TabAt(a) && DirAt(n, a) / 16 == n
    ensures 16 * n + (a / 4096) / 1024 == DirAt(n, a) && (a / 4096) % 1024 == TabAt(a)
  {
  }

  /** verify_area, seen from the stack, wipes exactly the lost pages of its area. */
  lemma VerifyWipes(m: Mem, u: Mem, n: nat, stack: Stack, base: nat, size: nat, copies: bool)
    requires 1 <= n < 64 && 1 <= size && base + size <= 0x400_0000
    requires VerifiedAt(m, u, n, base, size, copies) && StackIs(stack, m, n)
    ensures StackIs(G.Wiped(stack, base, size, Lost(m, n, copies)), u, n)
  {
    var wiped := G.Wiped(stack, base, size, Lost(m, n, copies));
    forall a | Aligned(a)
      ensures G.Load(wiped, a) == UserWord(u, n, a)
    {
      WipedAt(m, u, n, stack, base, size, copies, a, 16384 * n + a / 4096);
    }
  }

  lemma WipedAt(m: Mem, u: Mem, n: nat, stack: Stack, base: nat, size: nat, copies: bool, a: nat, q: nat)
    requires 1 <= n < 64 && 1 <= size && base + size <= 0x400_0000 && Aligned(a) && q == 16384 * n + a / 4096
    requires VerifiedAt(m, u, n, base, size, copies) && StackIs(stack, m, n)
    ensures G.Load(G.Wiped(stack, base, size, Lost(m, n, copies)), a) == UserWord(u, n, a)
  {
    var d, i, lost := DirAt(n, a), TabAt(a), Lost(m, n, copies);
    PageAt(n, a, q);
    var first, count := (Base(n) + base) / 4096, PageCount(base, size);
    var next := first + count;
    BaseAligned(n);
    NextPage(Base(n), base, size, first, count);
    AreaOfTask(n, base, size, a, q, first, next);
    LostAt(m, n, copies, a, d, i);
    SweptWords(m, u, first, next, q, d, i, copies);
    WipedLoad(stack, base, size, lost, a);
    assert G.Load(stack, a) == UserWord(m, n, a);
    WordsGiven(m, u, n, a, first <= q < next && G.Page(a) in lost);
  }

  lemma BaseAligned(n: nat)
    ensures Base(n) % 4096 == 0
  {
    assert Base(n) == 16384 * n * 4096;
  }

  lemma NextPage(start: nat, base: nat, size: nat, first: nat, count: nat)
    requires start % 4096 == 0 && 1 <= size && first == (start + base) / 4096 && count == PageCount(base, size)
    ensures first + count == (start + base + size - 1) / 4096 + 1
  {
    AreaPages(start, base, size);
  }

  lemma LostAt(m: Mem, n: nat, copies: bool, a: nat, d: nat, i: nat)
    requires Aligned(a) && d == DirAt(n, a) && i == TabAt(a)
    ensures G.Page(a) in Lost(m, n, copies) <==> !copies && Replaced(m, d, i)
  {
    PageAt(n, a, 16384 * n + a / 4096);
  }

  lemma SweptWords(m: Mem, u: Mem, first: nat, next: nat, q: nat, d: nat, i: nat, copies: bool)
    requires Swept(m, u, first, next, copies) && next <= first + 16384 && 16384 <= q < 1048576
    requires d == q / 1024 && i == q % 1024
    ensures Contents(u, d, i) == if first <= q < next && !copies && Replaced(m, d, i) then ZeroWords()
            else Contents(m, d, i)
  {
    if first <= q < next {
      assert VerifyArea.Holds(m, u, q, copies);
    } else {
      assert Untouched(m, u, q);
    }
  }

  lemma WipedLoad(stack: Stack, base: int, size: int, lost: set<int>, a: int)
    ensures G.Load(G.Wiped(stack, base, size, lost), a)
            == if G.Page(a) in lost && G.Page(base) <= G.Page(a) <= G.Page(base + size - 1) then 0 else G.Load(stack, a)
  {
  }

  lemma WordsGiven(m: Mem, u: Mem, n: nat, a: nat, gone: bool)
    requires Contents(u, DirAt(n, a), TabAt(a)) == if gone then ZeroWords() else Contents(m, DirAt(n, a), TabAt(a))
    ensures UserWord(u, n, a) == if gone then 0 else UserWord(m, n, a)
  {
  }

  lemma AreaOfTask(n: nat, base: nat, size: nat, a: nat, q: nat, first: nat, next: nat)
    requires 1 <= size && base + size <= 0x400_0000 && q == 16384 * n + a / 4096
    requires first == (Base(n) + base) / 4096 && next == (Base(n) + base + size - 1) / 4096 + 1
    ensures first <= q < next <==> G.Page(base) <= G.Page(a) <= G.Page(base + size - 1)
    ensures next <= first + 16384
  {
    assert first == 16384 * n + base / 4096;
    assert (Base(n) + base + size - 1) / 4096 == 16384 * n + (base + size - 1) / 4096;
  }

  // ---------- when a page is lost ----------

  /** After a fork the next verify_area of either side loses every page that was private to the
      parent, under the literal un_wp_page. */
  lemma ForkLoses(s: Sys, n: nat, c: nat, copies: bool, u: Sys, d: nat, i: nat)
    requires SysInv(s) && 1 <= n && StepsTo(s, EvFork(n), copies, u, Child(c))
    requires d / 16 == n && i < 1024 && Maps(s.mem, d, i) && Pte(s.mem, d, i).frame >= 256
    ensures var p := d % 16 * 1024 + i; p in Lost(u.mem, n, false) && p in Lost(u.mem, c, false)
  {
    ForkShares(s, n, c, copies, u, d, i);
    StepEffect(s, EvFork(n), copies, u, Child(c));
    var e := 16 * c + d % 16;
    SameResidueOf(c, d, e);
    BothLost(u.mem, n, c, d, e, i);
  }

  lemma BothLost(m: Mem, n: nat, c: nat, d: nat, e: nat, i: nat)
    requires d / 16 == n && e / 16 == c && e % 16 == d % 16 && i < 1024 && Replaced(m, d, i) && Replaced(m, e, i)
    ensures var p := d % 16 * 1024 + i; p in Lost(m, n, false) && p in Lost(m, c, false)
  {
    LostPage(m, n, d, i);
    LostPage(m, c, e, i);
  }

  lemma LostPage(m: Mem, n: nat, d: nat, i: nat)
    requires d / 16 == n && i < 1024 && Replaced(m, d, i)
    ensures d % 16 * 1024 + i in Lost(m, n, false)
  {
    var p := d % 16 * 1024 + i;
    assert p / 1024 == d % 16 && p % 1024 == i && d == 16 * n + d % 16;
  }

  // ---------- put_fs_long ----------

  /** Consecutive put_fs_long calls. */
  function Push(s: Sys, n: nat, base: nat, words: seq<Word32>, copies: bool): Run<Sys>
    decreases words
  {
    if words == [] then Done(s)
    else
      match KernelWrite(s, n, base, Decode(words[0]), copies)
      case Done(u) => Push(u, n, base + 4, words[1..], copies)
      case Oom => Oom
      case Panic => Panic
  }

  /** The page tables of the area exist, so no fault changes the page directory. */
  ghost predicate TablesThere(m: Mem, n: nat, off: nat, size: nat) {
    forall a | off <= a < off + size :: Pde(m, DirAt(n, a)).present
  }

  lemma Addressed(n: nat, a: nat)
    requires 1 <= n < 64 && a < 0x400_0000
    ensures DirOf(Base(n) + a) == DirAt(n, a) && TabOf(Base(n) + a) == TabAt(a) && 16 <= DirAt(n, a) < 1024
  {
    Where(n, a, 0x400_0000);
  }

  lemma OnePage(n: nat, a: nat, b: nat)
    requires Aligned(a) && Aligned(b)
    ensures DirAt(n, a) == DirAt(n, b) && TabAt(a) == TabAt(b) <==> a / 4096 == b / 4096
    ensures a / 4096 == b / 4096 ==> (a / 4 % 1024 == b / 4 % 1024 <==> a == b)
  {
    assert a / 4096 == a / 0x40_0000 * 1024 + TabAt(a) && b / 4096 == b / 0x40_0000 * 1024 + TabAt(b);
    assert a == a / 4096 * 4096 + a / 4 % 1024 * 4 && b == b / 4096 * 4096 + b / 4 % 1024 * 4;
  }

  /** One stored word, seen from the stack. */
  lemma WordStored(m: Mem, u: Mem, n: nat, stack: Stack, a: nat, w: Word32, copies: bool)
    requires 1 <= n < 64 && Aligned(a) && StackIs(stack, m, n) && Pde(m, DirAt(n, a)).present
    requires Stored(m, u, DirAt(n, a), TabAt(a), a / 4 % 1024, Decode(w), copies)
    requires !Replaced(m, DirAt(n, a), TabAt(a))
    ensures StackIs(stack[a := w], u, n)
  {
    forall b | Aligned(b)
      ensures G.Load(stack[a := w], b) == UserWord(u, n, b)
    {
      assert G.Load(stack, b) == UserWord(m, n, b);
      WordAt(m, u, n, a, w, b, copies);
    }
  }

  lemma WordAt(m: Mem, u: Mem, n: nat, a: nat, w: Word32, b: nat, copies: bool)
    requires 1 <= n < 64 && Aligned(a) && Aligned(b) && Pde(m, DirAt(n, a)).present
    requires Stored(m, u, DirAt(n, a), TabAt(a), a / 4 % 1024, Decode(w), copies)
    requires !Replaced(m, DirAt(n, a), TabAt(a))
    ensures UserWord(u, n, b) == if b == a then w else UserWord(m, n, b)
  {
    var d, i, o := DirAt(n, a), TabAt(a), a / 4 % 1024;
    Addressed(n, b);
    OnePage(n, a, b);
    if a / 4096 != b / 4096 {
      OtherContents(m, u, d, i, DirAt(n, b), TabAt(b));
    } else {
      StoredContents(m, u, d, i, o, Decode(w), copies);
      ValueDecode(w);
    }
  }

  lemma StoredContents(m: Mem, u: Mem, d: nat, i: nat, o: nat, w: Word, copies: bool)
    requires Stored(m, u, d, i, o, w, copies) && !Replaced(m, d, i)
    ensures Contents(u, d, i) == Contents(m, d, i)[o := w]
  {
    assert View(u, d, i) == Private(Contents(u, d, i));
  }

  lemma OtherContents(m: Mem, u: Mem, d: nat, i: nat, e: nat, j: nat)
    requires Served(m, u, d, i) && Pde(m, d).present && 16 <= e < 1024 && j < 1024 && !(e == d && j == i)
    ensures Contents(u, e, j) == Contents(m, e, j)
  {
    SameViewContents(m, u, e, j);
  }

  lemma StillReady(m: Mem, u: Mem, n: nat, off: nat, size: nat, d: nat, i: nat)
    requires AreaReady(m, n, off, size) && Served(m, u, d, i) && Pte(u, d, i).writable
    ensures AreaReady(u, n, off, size)
  {
    forall q | 16384 <= q < 1048576 && InArea(Base(n), off, size, q) && Maps(u, q / 1024, q % 1024)
      ensures Pte(u, q / 1024, q % 1024).writable
    {
      assert !(q / 1024 == d && q % 1024 == i) ==> Maps(m, q / 1024, q % 1024);
    }
  }

  lemma StillThere(m: Mem, u: Mem, n: nat, off: nat, size: nat, d: nat, i: nat)
    requires 1 <= n < 64 && off + size <= 0x400_0000 && TablesThere(m, n, off, size) && Served(m, u, d, i)
             && Pde(m, d).present
    ensures TablesThere(u, n, off, size)
  {
    forall a | off <= a < off + size
      ensures Pde(u, DirAt(n, a)).present
    {
      Addressed(n, a);
    }
  }

  ghost predicate PushIs(s: Sys, n: nat, base: nat, words: seq<Word32>, copies: bool, r: Run<Sys>) {
    r == Push(s, n, base, words, copies)
  }

  lemma PushOnce(s: Sys, n: nat, base: nat, words: seq<Word32>, copies: bool, u: Sys, next: nat, r: Run<Sys>)
    requires words != [] && KernelWrite(s, n, base, Decode(words[0]), copies) == Done(u) && next == base + 4
    requires PushIs(u, n, next, words[1..], copies, r)
    ensures PushIs(s, n, base, words, copies, r)
  {
    var k := KernelWrite(s, n, base, Decode(words[0]), copies);
    PushFrom(s, n, base, words, copies, k);
  }

  lemma PushFrom(s: Sys, n: nat, base: nat, words: seq<Word32>, copies: bool, k: Run<Sys>)
    requires words != [] && k == KernelWrite(s, n, base, Decode(words[0]), copies)
    ensures k.Done? ==> Push(s, n, base, words, copies) == Push(k.value, n, base + 4, words[1..], copies)
  {
  }

  lemma PushStops(s: Sys, n: nat, base: nat, words: seq<Word32>, copies: bool)
    requires words != [] && KernelWrite(s, n, base, Decode(words[0]), copies).Oom?
    ensures PushIs(s, n, base, words, copies, Oom)
  {
  }

  /** Task n is about to write to a verified area of its stack. */
  ghost predicate Primed(s: Sys, n: nat, stack: Stack, off: nat, size: nat) {
    && SysInv(s) && 1 <= n && Alive(s, n) && off + size <= s.limit
    && AreaReady(s.mem, n, off, size) && TablesThere(s.mem, n, off, size) && StackIs(stack, s.mem, n)
  }

  /** One put_fs_long inside a verified area. */
  lemma PutLong(s: Sys, n: nat, stack: Stack, off: nat, size: nat, a: nat, w: Word32, copies: bool)
    returns (r: Run<Sys>)
    requires Primed(s, n, stack, off, size) && off <= a < off + size && a % 4 == 0
    ensures r == KernelWrite(s, n, a, Decode(w), copies) && !r.Panic?
    ensures r.Done? ==> Primed(r.value, n, stack[a := w], off, size) && Beside(s.mem, r.value.mem, n)
  {
    ByteReady(s.mem, n, off, size, a);
    AsUser(s, n, a, Decode(w), copies);
    r := StoreKeeps(s, n, a, Decode(w), copies);
    if r.Done? {
      Addressed(n, a);
      var u := r.value;
      PutEffect(s.mem, u.mem, n, stack, off, size, a, w, copies);
      ServedBeside(s.mem, u.mem, n, a, s.limit);
    }
  }

  lemma PutEffect(m: Mem, u: Mem, n: nat, stack: Stack, off: nat, size: nat, a: nat, w: Word32, copies: bool)
    requires 1 <= n < 64 && off <= a < off + size <= 0x400_0000 && a % 4 == 0 && TablesThere(m, n, off, size)
    requires AreaReady(m, n, off, size) && StackIs(stack, m, n)
    requires Maps(m, DirAt(n, a), TabAt(a)) ==> Pte(m, DirAt(n, a), TabAt(a)).writable
    requires Stored(m, u, DirAt(n, a), TabAt(a), a / 4 % 1024, Decode(w), copies)
    ensures AreaReady(u, n, off, size) && TablesThere(u, n, off, size) && StackIs(stack[a := w], u, n)
  {
    var d, i := DirAt(n, a), TabAt(a);
    assert Pde(m, d).present;
    StillReady(m, u, n, off, size, d, i);
    StillThere(m, u, n, off, size, d, i);
    WordStored(m, u, n, stack, a, w, copies);
  }

  lemma StoreOnce(stack: Stack, base: int, words: seq<int>, next: int)
    requires words != [] && next == base + 4
    ensures G.Store(stack, base, words) == G.Store(stack[base := words[0]], next, words[1..])
  {
  }

  lemma AlsoAligned(a: int, k: int, b: int)
    requires a % 4 == 0 && b == a + 4 * k
    ensures b % 4 == 0
  {
  }

  lemma {:induction false} Pushed(s: Sys, n: nat, st: Stack, off: nat, size: nat, a: nat, ws: seq<Word32>, copies: bool)
    returns (r: Run<Sys>)
    requires Primed(s, n, st, off, size) && off <= a && a + 4 * |ws| <= off + size && a % 4 == 0
    ensures PushIs(s, n, a, ws, copies, r) && !r.Panic?
    ensures r.Done? ==> Primed(r.value, n, G.Store(st, a, ws), off, size) && Beside(s.mem, r.value.mem, n)
    decreases |ws|
  {
    if ws == [] {
      r := Done(s);
      assert forall e | 16 <= e < 1024 :: SameDir(s.mem, s.mem, e);
    } else {
      var rest, next, more := ws[1..], a + 4, st[a := ws[0]];
      var p := PutLong(s, n, st, off, size, a, ws[0], copies);
      if p.Done? {
        AlsoAligned(a, 1, next);
        r := Pushed(p.value, n, more, off, size, next, rest, copies);
        PushOnce(s, n, a, ws, copies, p.value, next, r);
        StoreOnce(st, a, ws, next);
        if r.Done? {
          BesideTwice(s.mem, p.value.mem, r.value.mem, n);
        }
      } else {
        PushStops(s, n, a, ws, copies);
        r := Oom;
      }
    }
  }

  // ---------- do_signal ----------

  /** The part of do_signal that touches user memory. */
  function Deliver(s: Sys, n: nat, base: nat, words: seq<Word32>, copies: bool): Run<Sys> {
    var u :- Verify(s, n, base, 4 * |words|, copies);
    Push(u, n, base, words, copies)
  }

  ghost predicate DeliverIs(s: Sys, n: nat, base: nat, words: seq<Word32>, copies: bool, r: Run<Sys>) {
    r == Deliver(s, n, base, words, copies)
  }

  lemma DeliverUnfolds(s: Sys, n: nat, base: nat, words: seq<Word32>, copies: bool, v: Run<Sys>, r: Run<Sys>)
    requires v == Verify(s, n, base, 4 * |words|, copies)
    requires if v.Done? then PushIs(v.value, n, base, words, copies, r) else r == v
    ensures DeliverIs(s, n, base, words, copies, r)
  {
  }

  lemma TablesKept(m: Mem, u: Mem, n: nat, off: nat, size: nat)
    requires 1 <= n < 64 && off + size <= 0x400_0000 && TablesThere(m, n, off, size) && SameDirectory(m, u)
    ensures TablesThere(u, n, off, size)
  {
    forall a | off <= a < off + size
      ensures Pde(u, DirAt(n, a)).present
    {
      Addressed(n, a);
    }
  }

  /** On the task's real memory do_signal does what `Signals.DoSignal` says, where the pages lost
      are those un_wp_page has to replace without copying; no other task's page changes. */
  lemma DeliversInMemory(s: Sys, n: nat, g: G.State, signr: nat, words: seq<Word32>, base: nat, copies: bool)
    returns (r: Run<Sys>)
    requires SysInv(s) && 1 <= n && Alive(s, n) && StackIs(g.stack, s.mem, n)
    requires 1 <= signr <= G.NSIG && |g.actions| == G.NSIG && G.Caught(g.actions[signr - 1])
    requires words == G.Frame(g, signr) && base == g.cpu.esp - 4 * |words| && g.cpu.esp % 4 == 0 && g.cpu.esp <= s.limit
    requires TablesThere(s.mem, n, base, 4 * |words|)
    ensures DeliverIs(s, n, base, words, copies, r) && !r.Panic?
    ensures r.Done? ==> && SysInv(r.value) && Beside(s.mem, r.value.mem, n)
                        && StackIs(G.DoSignal(g, signr, Lost(s.mem, n, copies)).stack, r.value.mem, n)
  {
    var size, lost := 4 * |words|, Lost(s.mem, n, copies);
    var v := VerifyPrimes(s, n, g.stack, base, size, copies);
    AlsoAligned(g.cpu.esp, -|words|, base);
    if v.Done? {
      r := Pushed(v.value, n, G.Wiped(g.stack, base, size, lost), base, size, base, words, copies);
      if r.Done? {
        BesideTwice(s.mem, v.value.mem, r.value.mem, n);
        DoSignalStack(g, signr, lost, words, base, size);
      }
    } else {
      r := v;
    }
    DeliverUnfolds(s, n, base, words, copies, v, r);
  }

  lemma VerifyPrimes(s: Sys, n: nat, stack: Stack, base: nat, size: nat, copies: bool) returns (v: Run<Sys>)
    requires SysInv(s) && 1 <= n && Alive(s, n) && 1 <= size && base + size <= s.limit
    requires StackIs(stack, s.mem, n) && TablesThere(s.mem, n, base, size)
    ensures v == Verify(s, n, base, size, copies) && !v.Panic?
    ensures v.Done? ==> && Primed(v.value, n, G.Wiped(stack, base, size, Lost(s.mem, n, copies)), base, size)
                        && Beside(s.mem, v.value.mem, n)
  {
    Where(n, base, s.limit);
    v := VerifyKeeps(s, n, base, size, copies);
    if v.Done? {
      var u := v.value;
      VerifiedReady(s.mem, u.mem, n, base, size, copies);
      VerifyWipes(s.mem, u.mem, n, stack, base, size, copies);
      TablesKept(s.mem, u.mem, n, base, size);
      VerifiedBeside(s.mem, u.mem, n, base, size, copies);
    }
  }

  lemma DoSignalStack(g: G.State, signr: nat, lost: set<int>, words: seq<int>, base: int, size: int)
    requires 1 <= signr <= G.NSIG && |g.actions| == G.NSIG && G.Caught(g.actions[signr - 1])
    requires words == G.Frame(g, signr) && size == 4 * |words| && base == g.cpu.esp - size
    ensures G.DoSignal(g, signr, lost).stack == G.Store(G.Wiped(g.stack, base, size, lost), base, words)
  {
  }
}
