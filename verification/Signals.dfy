/** Delivery of a signal to a user handler (kernel/signal.c), the way back through the C
    library's restorers (kernel/libc_restore.s), and the choice of the signal on return from
    a system call (kernel/system_call.s). A signal mask is the set of the signals whose bits
    are set. */
module Signals {
  import opened Counting

  const NSIG := 32
  const SIGKILL := 9

  datatype Action = Action(handler: int, mask: set<nat>, nomask: bool, oneshot: bool, restorer: int)

  /** The registers an interrupted user program gets back. */
  datatype Cpu = Cpu(eax: int, ecx: int, edx: int, eflags: int, eip: int, esp: int)

  /** `stack` is user memory by address, a word every four bytes. */
  datatype State = State(cpu: Cpu, stack: map<int, int>, signal: set<nat>, blocked: set<nat>, actions: seq<Action>)

  function Load(m: map<int, int>, a: int): int {
    if a in m then m[a] else 0
  }

  /** put_fs_long at rising addresses. */
  function Store(m: map<int, int>, base: int, words: seq<int>): map<int, int>
    decreases words
  {
    if words == [] then m else Store(m[base := words[0]], base + 4, words[1..])
  }

  /** The word of a mask: signal k is bit k - 1. */
  function MaskWord(b: set<nat>, k: nat): nat
    decreases k
  {
    if k == 0 then 0 else MaskWord(b, k - 1) + if k in b then Pow2(k - 1) else 0
  }

  lemma {:induction false} MaskFits(b: set<nat>, n: nat)
    ensures MaskWord(b, n) < Pow2(n)
  {
    if n > 0 {
      MaskFits(b, n - 1);
    }
  }

  /** One bit on top does not touch the lower ones. */
  lemma UpperBit(x: nat, k: nat, n: nat)
    requires 1 <= k < n
    ensures (x + Pow2(n - 1)) / Pow2(k - 1) % 2 == x / Pow2(k - 1) % 2
  {
    Pow2Sum(n - k, k - 1);
    EvenMultiple(x, Pow2(k - 1), Pow2(n - k - 1), Pow2(n - 1));
  }

  lemma EvenMultiple(x: nat, d: nat, q: nat, p: nat)
    requires d >= 1 && p == 2 * q * d
    ensures (x + p) / d % 2 == x / d % 2
  {
    AddMultiple(x, 2 * q, d);
    EvenAdded(x / d, q);
  }

  lemma EvenAdded(a: nat, q: nat)
    ensures (a + 2 * q) % 2 == a % 2
  {
  }

  lemma TopBit(x: nat, n: nat)
    requires x < Pow2(n)
    ensures x / Pow2(n) == 0 && (x + Pow2(n)) / Pow2(n) == 1
  {
    AddMultiple(x, 1, Pow2(n));
  }

  lemma {:induction false} MaskBitsTo(b: set<nat>, n: nat, k: nat)
    requires 1 <= k <= n
    ensures MaskWord(b, n) / Pow2(k - 1) % 2 == 1 <==> k in b
    decreases n
  {
    MaskFits(b, n - 1);
    if k == n {
      TopBit(MaskWord(b, n - 1), n - 1);
    } else {
      MaskBitsTo(b, n - 1, k);
      UpperBit(MaskWord(b, n - 1), k, n);
    }
  }

  /** The bits of the word 1..32 stand for the signals in the mask, from the lowest bit up. */
  ghost predicate IsMask(w: int, b: set<nat>) {
    0 <= w < 0x1_0000_0000 && forall k | 1 <= k <= 32 :: w / Pow2(k - 1) % 2 == 1 <==> k in b
  }

  /** The saved mask is a 32-bit word in which bit k - 1 is set if and only if signal k is blocked. */
  lemma MaskBits(b: set<nat>)
    ensures IsMask(MaskWord(b, 32), b)
  {
    MaskFits(b, 32);
    WordSize();
    forall k | 1 <= k <= 32
      ensures MaskWord(b, 32) / Pow2(k - 1) % 2 == 1 <==> k in b
    {
      MaskBitsTo(b, 32, k);
    }
  }

  // ---------- do_signal ----------

  predicate Caught(a: Action) {
    a.handler != 0 && a.handler != 1
  }

  function Frame(s: State, n: nat): (w: seq<int>)
    requires 1 <= n <= NSIG && |s.actions| == NSIG
    ensures |w| == if s.actions[n - 1].nomask then 7 else 8
  {
    var a := s.actions[n - 1];
    [a.restorer, n] + (if a.nomask then [] else [MaskWord(s.blocked, NSIG)])
    + [s.cpu.eax, s.cpu.ecx, s.cpu.edx, s.cpu.eflags, s.cpu.eip]
  }

  function Page(a: int): int {
    a / 4096
  }

  /** The stack after verify_area on `size` bytes from `base`: `lost` are the pages whose
      contents un_wp_page does not keep. They read as zeros. */
  function Wiped(stack: map<int, int>, base: int, size: int, lost: set<int>): map<int, int> {
    map a | a in stack && !(Page(a) in lost && Page(base) <= Page(a) <= Page(base + size - 1)) :: stack[a]
  }

  /** `lost` names the pages of the task whose contents un_wp_page does not keep;
      `SignalMemory.Lost` gives them in terms of the page tables. */
  function DoSignal(s: State, n: nat, lost: set<int>): State
    requires 1 <= n <= NSIG && |s.actions| == NSIG
  {
    var a := s.actions[n - 1];
    if !Caught(a) then s
    else
      var size := 4 * |Frame(s, n)|;
      var base := s.cpu.esp - size;
      s.(cpu := s.cpu.(eip := a.handler, esp := base),
         stack := Store(Wiped(s.stack, base, size, lost), base, Frame(s, n)),
         blocked := s.blocked + a.mask,
         actions := if a.oneshot then s.actions[n - 1 := a.(handler := 0)] else s.actions)
  }

  // ---------- the restorers ----------

  datatype Instruction = AddEsp4 | PopEax | PopEcx | PopEdx | PopFlags | Ret

  /** The pops both restorers end with. */
  const TAIL := [PopEax, PopEcx, PopEdx, PopFlags, Ret]
  const SIG_RESTORE := [AddEsp4, PopEax, PopEcx, PopEdx, PopFlags, Ret]
  const MASKSIG_RESTORE := [AddEsp4, AddEsp4, PopEax, PopEcx, PopEdx, PopFlags, Ret]

  function Execute1(c: Cpu, m: map<int, int>, i: Instruction): Cpu {
    var w, up := Load(m, c.esp), c.(esp := c.esp + 4);
    match i
    case AddEsp4 => up
    case PopEax => up.(eax := w)
    case PopEcx => up.(ecx := w)
    case PopEdx => up.(edx := w)
    case PopFlags => up.(eflags := w)
    case Ret => up.(eip := w)
  }

  function Execute(c: Cpu, m: map<int, int>, program: seq<Instruction>): Cpu
    decreases program
  {
    if program == [] then c else Execute(Execute1(c, m, program[0]), m, program[1..])
  }

  /** Where the library put its two restorers. */
  datatype Library = Library(plain: int, masked: int)

  /** The handler's own `ret`, and the restorer it returns to. */
  function Leave(c: Cpu, m: map<int, int>, lib: Library): Cpu {
    var r := Execute1(c, m, Ret);
    if r.eip == lib.plain then Execute(r, m, SIG_RESTORE)
    else if r.eip == lib.masked then Execute(r, m, MASKSIG_RESTORE)
    else r
  }

  predicate Matching(a: Action, lib: Library) {
    lib.plain != lib.masked && a.restorer == if a.nomask then lib.plain else lib.masked
  }

  ghost predicate Agree(m: map<int, int>, n: map<int, int>, from: int) {
    forall a | from <= a :: Load(m, a) == Load(n, a)
  }

  lemma {:induction false} StoreAt(m: map<int, int>, base: int, words: seq<int>, i: nat)
    requires i < |words|
    ensures Load(Store(m, base, words), base + 4 * i) == words[i]
    decreases words
  {
    var m1, rest := m[base := words[0]], words[1..];
    if i == 0 {
      StoreElsewhere(m1, base + 4, rest, base);
    } else {
      StoreAt(m1, base + 4, rest, i - 1);
      assert base + 4 * i == base + 4 + 4 * (i - 1);
    }
  }

  lemma {:induction false} StoreElsewhere(m: map<int, int>, base: int, words: seq<int>, a: int)
    requires a < base || base + 4 * |words| <= a
    ensures Load(Store(m, base, words), a) == Load(m, a)
    decreases words
  {
    if words != [] {
      StoreElsewhere(m[base := words[0]], base + 4, words[1..], a);
    }
  }

  /** The stack still holds what do_signal pushed for the program state c. */
  ghost predicate Holds(m: map<int, int>, base: int, a: Action, c: Cpu) {
    var k := if a.nomask then 8 else 12;
    && Load(m, base) == a.restorer
    && Load(m, base + k) == c.eax && Load(m, base + k + 4) == c.ecx && Load(m, base + k + 8) == c.edx
    && Load(m, base + k + 12) == c.eflags && Load(m, base + k + 16) == c.eip
    && base + k + 20 == c.esp
  }

  /** What the delivery takes from the stack above is nothing but zeros. */
  ghost predicate Spared(s: State, lost: set<int>) {
    forall a | s.cpu.esp <= a && Page(a) in lost && Page(a) == Page(s.cpu.esp - 1) :: Load(s.stack, a) == 0
  }

  lemma WipedIs(m: map<int, int>, base: int, size: int, lost: set<int>, a: int)
    requires size >= 1 && base + size <= a
    ensures Load(Wiped(m, base, size, lost), a)
            == if Page(a) in lost && Page(a) == Page(base + size - 1) then 0 else Load(m, a)
  {
    assert Page(base) <= Page(base + size - 1) <= Page(a);
  }

  /** The delivery leaves a complete frame, and leaves the stack above it as it was if and only
      if no page it loses held anything there. */
  lemma Delivers(s: State, n: nat, lost: set<int>)
    requires 1 <= n <= NSIG && |s.actions| == NSIG && Caught(s.actions[n - 1])
    ensures Agree(DoSignal(s, n, lost).stack, s.stack, s.cpu.esp) <==> Spared(s, lost)
    ensures var t := DoSignal(s, n, lost);
            && Holds(t.stack, t.cpu.esp, s.actions[n - 1], s.cpu)
            && t.cpu == s.cpu.(eip := s.actions[n - 1].handler,
                               esp := s.cpu.esp - if s.actions[n - 1].nomask then 28 else 32)
            && Load(t.stack, t.cpu.esp + 4) == n
            && (!s.actions[n - 1].nomask ==> IsMask(Load(t.stack, t.cpu.esp + 8), s.blocked))
            && t.blocked == s.blocked + s.actions[n - 1].mask && t.signal == s.signal
            && |t.actions| == NSIG && forall k | 0 <= k < NSIG ::
                 t.actions[k] == if k == n - 1 && s.actions[k].oneshot then s.actions[k].(handler := 0)
                   else s.actions[k]
  {
    var w := Frame(s, n);
    var base := s.cpu.esp - 4 * |w|;
    var m := Wiped(s.stack, base, 4 * |w|, lost);
    StoreAt(m, base, w, 0);
    StoreAt(m, base, w, 1);
    StoreAt(m, base, w, 2);
    StoreAt(m, base, w, 3);
    StoreAt(m, base, w, 4);
    StoreAt(m, base, w, 5);
    StoreAt(m, base, w, 6);
    if !s.actions[n - 1].nomask {
      StoreAt(m, base, w, 7);
      MaskBits(s.blocked);
    }
    forall a | s.cpu.esp <= a
      ensures Load(Store(m, base, w), a) == if Page(a) in lost && Page(a) == Page(s.cpu.esp - 1) then 0
              else Load(s.stack, a)
    {
      StoreElsewhere(m, base, w, a);
      WipedIs(s.stack, base, 4 * |w|, lost, a);
    }
  }

  /** A signal with the default handler, or one that is ignored, is consumed and nothing happens. */
  lemma NotDelivered(s: State, n: nat, lost: set<int>)
    requires 1 <= n <= NSIG && |s.actions| == NSIG && s.actions[n - 1].handler in {0, 1}
    ensures DoSignal(s, n, lost) == s
  {
  }

  lemma Executes(c: Cpu, m: map<int, int>)
    ensures Execute(c, m, SIG_RESTORE) ==
              Cpu(Load(m, c.esp + 4), Load(m, c.esp + 8), Load(m, c.esp + 12), Load(m, c.esp + 16),
                Load(m, c.esp + 20), c.esp + 24)
    ensures Execute(c, m, MASKSIG_RESTORE) ==
              Cpu(Load(m, c.esp + 8), Load(m, c.esp + 12), Load(m, c.esp + 16), Load(m, c.esp + 20),
                Load(m, c.esp + 24), c.esp + 28)
  {
    var up := Execute1(c, m, AddEsp4);
    PlainTail(up, m);
    PlainTail(c, m);
    assert SIG_RESTORE[1..] == TAIL;
    assert MASKSIG_RESTORE[1..] == SIG_RESTORE;
    PlainTail(Execute1(up, m, AddEsp4), m);
  }

  lemma PlainTail(c: Cpu, m: map<int, int>)
    ensures Execute(c, m, TAIL) ==
              Cpu(Load(m, c.esp), Load(m, c.esp + 4), Load(m, c.esp + 8), Load(m, c.esp + 12), Load(m, c.esp + 16),
                c.esp + 20)
  {
    var c1 := Execute1(c, m, PopEax);
    var c2 := Execute1(c1, m, PopEcx);
    var c3 := Execute1(c2, m, PopEdx);
    var c4 := Execute1(c3, m, PopFlags);
    First(c, m, PopEax, [PopEcx, PopEdx, PopFlags, Ret]);
    First(c1, m, PopEcx, [PopEdx, PopFlags, Ret]);
    First(c2, m, PopEdx, [PopFlags, Ret]);
    First(c3, m, PopFlags, [Ret]);
    First(c4, m, Ret, []);
    assert TAIL == [PopEax] + [PopEcx, PopEdx, PopFlags, Ret];
    assert [PopEcx, PopEdx, PopFlags, Ret] == [PopEcx] + [PopEdx, PopFlags, Ret];
    assert [PopEdx, PopFlags, Ret] == [PopEdx] + [PopFlags, Ret];
    assert [PopFlags, Ret] == [PopFlags] + [Ret];
    assert [Ret] == [Ret] + [];
  }

  lemma First(c: Cpu, m: map<int, int>, i: Instruction, rest: seq<Instruction>)
    ensures Execute(c, m, [i] + rest) == Execute(Execute1(c, m, i), m, rest)
  {
    assert ([i] + rest)[1..] == rest;
  }

  /** Leaving a handler over an intact frame gives the interrupted program its registers, its
      place and its stack pointer back. */
  lemma Returns(c: Cpu, m: map<int, int>, lib: Library, a: Action, before: Cpu)
    requires Holds(m, c.esp, a, before) && Matching(a, lib)
    ensures Leave(c, m, lib) == before
  {
    var r := Execute1(c, m, Ret);
    Executes(r, m);
  }

  // ---------- any nesting of handlers ----------

  /** `before` is the program state the signal interrupted. */
  datatype Interrupted = Interrupted(before: Cpu, memory: map<int, int>, base: int, action: Action)

  datatype Machine = Machine(s: State, frames: seq<Interrupted>)

  /** `Work` is anything a handler does between two signals; `Signal` a delivery; `Return` the
      end of the innermost handler. */
  datatype Event = Work(cpu: Cpu, stack: map<int, int>) | Signal(n: nat, lost: set<int>) | Return

  function Top(m: Machine): Interrupted
    requires m.frames != []
  {
    m.frames[|m.frames| - 1]
  }

  /** Handlers keep the stack above them and return with the stack pointer they were given. */
  ghost predicate Allowed(m: Machine, lib: Library, e: Event) {
    match e
    case Work(c, stack) => m.frames != [] && c.esp <= Top(m).base && Agree(stack, m.s.stack, Top(m).base)
    case Signal(n, _) => 1 <= n <= NSIG && |m.s.actions| == NSIG && Caught(m.s.actions[n - 1])
      && Matching(m.s.actions[n - 1], lib)
    case Return => m.frames != [] && m.s.cpu.esp == Top(m).base
  }

  ghost function After(m: Machine, lib: Library, e: Event): Machine
    requires Allowed(m, lib, e)
  {
    match e
    case Work(c, stack) => m.(s := m.s.(cpu := c, stack := stack))
    case Signal(n, lost) =>
      var t := DoSignal(m.s, n, lost);
      Machine(t, m.frames + [Interrupted(m.s.cpu, m.s.stack, t.cpu.esp, m.s.actions[n - 1])])
    case Return => Machine(m.s.(cpu := Leave(m.s.cpu, m.s.stack, lib)), m.frames[..|m.frames| - 1])
  }

  /** Every frame is intact, each below the handler it interrupted. */
  ghost predicate Intact(m: Machine, lib: Library) {
    && (forall i | 0 <= i < |m.frames| :: IntactAt(m, lib, m.frames[i]))
    && (forall i, j | 0 <= i < j < |m.frames| :: m.frames[j].before.esp <= m.frames[i].base)
    && (m.frames != [] ==> m.s.cpu.esp <= Top(m).base)
  }

  ghost predicate IntactAt(m: Machine, lib: Library, f: Interrupted) {
    && f.base < f.before.esp && Matching(f.action, lib)
    && Holds(m.s.stack, f.base, f.action, f.before) && Agree(m.s.stack, f.memory, f.before.esp)
  }

  lemma KeepsFrame(m: Machine, lib: Library, u: Machine, f: Interrupted, low: int)
    requires IntactAt(m, lib, f) && Agree(u.s.stack, m.s.stack, low) && low <= f.base
    ensures IntactAt(u, lib, f)
  {
    assert forall a | low <= a :: Load(u.s.stack, a) == Load(m.s.stack, a);
  }

  lemma BelowAll(m: Machine, lib: Library, i: nat)
    requires Intact(m, lib) && i < |m.frames|
    ensures Top(m).base <= m.frames[i].base && m.s.cpu.esp <= m.frames[i].base
  {
    if i < |m.frames| - 1 {
      assert Top(m).before.esp <= m.frames[i].base;
      assert IntactAt(m, lib, Top(m));
    }
  }

  lemma WorkKeeps(m: Machine, lib: Library, e: Event)
    requires Intact(m, lib) && Allowed(m, lib, e) && e.Work?
    ensures Intact(After(m, lib, e), lib)
  {
    var u := After(m, lib, e);
    forall i | 0 <= i < |u.frames|
      ensures IntactAt(u, lib, u.frames[i])
    {
      BelowAll(m, lib, i);
      KeepsFrame(m, lib, u, m.frames[i], Top(m).base);
    }
  }

  lemma NewFrame(m: Machine, lib: Library, e: Event)
    requires Allowed(m, lib, e) && e.Signal? && Spared(m.s, e.lost)
    ensures var u := After(m, lib, e);
            && u.frames == m.frames + [Top(u)] && IntactAt(u, lib, Top(u))
            && Top(u).before.esp == m.s.cpu.esp && u.s.cpu.esp == Top(u).base
            && Agree(u.s.stack, m.s.stack, m.s.cpu.esp)
  {
    Delivers(m.s, e.n, e.lost);
  }

  lemma SignalKeeps(m: Machine, lib: Library, e: Event)
    requires Intact(m, lib) && Allowed(m, lib, e) && e.Signal? && Spared(m.s, e.lost)
    ensures Intact(After(m, lib, e), lib)
  {
    var u := After(m, lib, e);
    var k := |m.frames|;
    NewFrame(m, lib, e);
    forall i | 0 <= i < |u.frames|
      ensures IntactAt(u, lib, u.frames[i])
      ensures i < k ==> m.s.cpu.esp <= u.frames[i].base
    {
      if i < k {
        BelowAll(m, lib, i);
        KeepsFrame(m, lib, u, m.frames[i], m.s.cpu.esp);
      }
    }
  }

  /** A delivery leaves all frames, its own included, intact if and only if verify_area takes
      nothing but zeros from the stack above. */
  lemma IntactIff(m: Machine, lib: Library, e: Event)
    requires Intact(m, lib) && Allowed(m, lib, e) && e.Signal?
    ensures Intact(After(m, lib, e), lib) <==> Spared(m.s, e.lost)
  {
    var u := After(m, lib, e);
    if Spared(m.s, e.lost) {
      SignalKeeps(m, lib, e);
    }
    if Intact(u, lib) {
      assert IntactAt(u, lib, Top(u)) && Top(u).memory == m.s.stack && Top(u).before == m.s.cpu;
      Delivers(m.s, e.n, e.lost);
    }
  }

  /** A return gives the interrupted program, be it the user's or another handler, exactly the
      registers it had and the stack it had from its stack pointer up. */
  lemma ReturnRestores(m: Machine, lib: Library)
    requires Intact(m, lib) && Allowed(m, lib, Return)
    ensures var u := After(m, lib, Return);
            && u.s.cpu == Top(m).before && Agree(u.s.stack, Top(m).memory, u.s.cpu.esp)
            && Intact(u, lib)
  {
    var u := After(m, lib, Return);
    var f := Top(m);
    assert IntactAt(m, lib, f);
    Returns(m.s.cpu, m.s.stack, lib, f.action, f.before);
    forall i | 0 <= i < |u.frames|
      ensures IntactAt(u, lib, u.frames[i])
    {
      assert IntactAt(m, lib, m.frames[i]);
    }
  }

  /** A delivery that loses the page with the start of an outer frame destroys it: its handler
      will return to address 0 instead of the restorer. */
  lemma FrameLost(m: Machine, lib: Library, e: Event, f: Interrupted, c: Cpu)
    requires Intact(m, lib) && Allowed(m, lib, e) && e.Signal? && f in m.frames && lib.plain != 0 && lib.masked != 0
    requires Page(f.base) in e.lost && Page(f.base) == Page(m.s.cpu.esp - 1) && c.esp == f.base
    ensures !IntactAt(After(m, lib, e), lib, f) && Leave(c, After(m, lib, e).s.stack, lib).eip == 0
  {
    var i :| 0 <= i < |m.frames| && m.frames[i] == f;
    BelowAll(m, lib, i);
    assert IntactAt(m, lib, f);
    var w := Frame(m.s, e.n);
    var base := m.s.cpu.esp - 4 * |w|;
    StoreElsewhere(Wiped(m.s.stack, base, 4 * |w|, e.lost), base, w, f.base);
    WipedIs(m.s.stack, base, 4 * |w|, e.lost, f.base);
  }

  /** What the user program will find once every handler has returned. */
  function Bottom(m: Machine): Cpu {
    if m.frames == [] then m.s.cpu else m.frames[0].before
  }

  lemma StepKeeps(m: Machine, lib: Library, e: Event)
    requires Intact(m, lib) && Allowed(m, lib, e) && (e.Signal? ==> Spared(m.s, e.lost))
    ensures Intact(After(m, lib, e), lib) && Bottom(After(m, lib, e)) == Bottom(m)
  {
    match e
    case Work(_, _) => WorkKeeps(m, lib, e);
    case Signal(_, _) => SignalKeeps(m, lib, e);
    case Return => ReturnRestores(m, lib);
  }

  ghost predicate Legal(m: Machine, lib: Library, events: seq<Event>)
    decreases events
  {
    events == [] || (Allowed(m, lib, events[0]) && Legal(After(m, lib, events[0]), lib, events[1..]))
  }

  ghost function AfterAll(m: Machine, lib: Library, events: seq<Event>): Machine
    requires Legal(m, lib, events)
    decreases events
  {
    if events == [] then m else AfterAll(After(m, lib, events[0]), lib, events[1..])
  }

  /** No delivery of the run loses anything above its stack pointer; with the documented
      un_wp_page, or on stack pages that are the task's own, every run is like that. */
  ghost predicate SparedThroughout(m: Machine, lib: Library, events: seq<Event>)
    requires Legal(m, lib, events)
    decreases events
  {
    events == [] || ((events[0].Signal? ==> Spared(m.s, events[0].lost))
      && SparedThroughout(After(m, lib, events[0]), lib, events[1..]))
  }

  lemma {:induction false} NothingLostSpares(m: Machine, lib: Library, events: seq<Event>)
    requires Legal(m, lib, events) && forall k | 0 <= k < |events| :: events[k].Signal? ==> events[k].lost == {}
    ensures SparedThroughout(m, lib, events)
    decreases events
  {
    if events != [] {
      NothingLostSpares(After(m, lib, events[0]), lib, events[1..]);
    }
  }

  lemma {:induction false} RunKeeps(m: Machine, lib: Library, events: seq<Event>)
    requires Intact(m, lib) && Legal(m, lib, events) && SparedThroughout(m, lib, events)
    ensures Intact(AfterAll(m, lib, events), lib) && Bottom(AfterAll(m, lib, events)) == Bottom(m)
    decreases events
  {
    if events != [] {
      StepKeeps(m, lib, events[0]);
      RunKeeps(After(m, lib, events[0]), lib, events[1..]);
    }
  }

  /** However deeply signals interrupt one another's handlers, the program they first
      interrupted gets its six registers back, as long as no delivery loses stack words. */
  lemma NestedReturn(s: State, lib: Library, events: seq<Event>)
    requires Legal(Machine(s, []), lib, events) && SparedThroughout(Machine(s, []), lib, events)
    requires AfterAll(Machine(s, []), lib, events).frames == []
    ensures AfterAll(Machine(s, []), lib, events).s.cpu == s.cpu
  {
    RunKeeps(Machine(s, []), lib, events);
  }

  /** With the documented un_wp_page, which loses no page, no further condition is needed. */
  lemma CopiedReturn(s: State, lib: Library, events: seq<Event>)
    requires Legal(Machine(s, []), lib, events) && AfterAll(Machine(s, []), lib, events).frames == []
    requires forall k | 0 <= k < |events| :: events[k].Signal? ==> events[k].lost == {}
    ensures AfterAll(Machine(s, []), lib, events).s.cpu == s.cpu
  {
    NothingLostSpares(Machine(s, []), lib, events);
    NestedReturn(s, lib, events);
  }

  // ---------- masks ----------

  /** sys_signal and sys_sigaction, without the copies to and from user memory. */
  function SysSignal(s: State, n: int, handler: int, restorer: int): (State, int)
    requires |s.actions| == NSIG
  {
    if n < 1 || n > NSIG || n == SIGKILL then (s, -1)
    else (s.(actions := s.actions[n - 1 := Action(handler, {}, true, true, restorer)]), s.actions[n - 1].handler)
  }

  function SysSigaction(s: State, n: int, a: Action): (State, int)
    requires |s.actions| == NSIG
  {
    if n < 1 || n > NSIG || n == SIGKILL then (s, -1)
    else (s.(actions := s.actions[n - 1 := a.(mask := if a.nomask then {} else a.mask + {n})]), 0)
  }

  function SysSsetmask(s: State, mask: set<nat>): (State, set<nat>) {
    (s.(blocked := mask - {SIGKILL}), s.blocked)
  }

  /** The first deliverable signal, by number: bsf on signal & ~blocked. */
  function Lowest(pending: set<nat>, n: nat): (r: nat)
    requires 1 <= n <= NSIG + 1
    ensures r == 0 <==> forall x | n <= x <= NSIG :: x !in pending
    ensures r != 0 ==> n <= r <= NSIG && r in pending && forall x | n <= x < r :: x !in pending
    decreases NSIG + 1 - n
  {
    if n > NSIG then 0 else if n in pending then n else Lowest(pending, n + 1)
  }

  /** What the first tests of ret_from_syscall look at: whether the current task is task 0, and
      the code and stack selectors it is about to return with. */
  datatype Origin = Origin(task0: bool, cs: int, ss: int)

  predicate ToUser(o: Origin) {
    !o.task0 && o.cs % 0x1_0000 == 0x0f && o.ss % 0x1_0000 == 0x17
  }

  /** ret_from_syscall. */
  function RetFromSyscall(s: State, o: Origin, lost: set<int>): State
    requires |s.actions| == NSIG
  {
    var n := Lowest(s.signal - s.blocked, 1);
    if !ToUser(o) || n == 0 then s else DoSignal(s.(signal := s.signal - {n}), n, lost)
  }

  /** Unless SA_NOMASK is set, a caught signal is in the mask of its own action. */
  ghost predicate SelfMasked(s: State) {
    |s.actions| == NSIG && forall i | 0 <= i < NSIG :: MasksItself(s.actions[i], i + 1)
  }

  predicate MasksItself(a: Action, n: nat) {
    Caught(a) && !a.nomask ==> n in a.mask
  }

  /** What sys_sigaction, sys_signal and sys_ssetmask set and return. Signal 9 and numbers that are no
      signals are refused; otherwise exactly the one action changes, to the given one with n itself
      in its mask or, with SA_NOMASK, with an empty mask; signal() makes it one-shot and without a
      mask, and returns the old handler. The new mask is the given one without signal 9. */
  lemma ActionsSet(s: State, n: int, a: Action, h: int, r: int, mask: set<nat>)
    requires |s.actions| == NSIG
    ensures n < 1 || n > 32 || n == 9 ==> SysSigaction(s, n, a) == (s, -1) && SysSignal(s, n, h, r) == (s, -1)
    ensures 1 <= n <= 32 && n != 9 ==>
              var (t, u) := (SysSigaction(s, n, a), SysSignal(s, n, h, r));
              && t.1 == 0 && t.0 == s.(actions := t.0.actions) && |t.0.actions| == NSIG
              && (forall k | 0 <= k < NSIG && k != n - 1 :: t.0.actions[k] == s.actions[k])
              && t.0.actions[n - 1] == a.(mask := t.0.actions[n - 1].mask)
              && (forall k :: k in t.0.actions[n - 1].mask <==> !a.nomask && (k == n || k in a.mask))
              && u.1 == s.actions[n - 1].handler && u.0 == s.(actions := u.0.actions) && |u.0.actions| == NSIG
              && (forall k | 0 <= k < NSIG && k != n - 1 :: u.0.actions[k] == s.actions[k])
              && u.0.actions[n - 1] == Action(h, {}, true, true, r)
    ensures var (v, before) := SysSsetmask(s, mask);
            && before == s.blocked && v == s.(blocked := v.blocked)
            && forall k :: k in v.blocked <==> k in mask && k != 9
  {
  }

  lemma SelfMaskedKept(s: State, n: nat, o: Origin, lost: set<int>, m: int, a: Action, h: int, r: int, mask: set<nat>)
    requires SelfMasked(s) && 1 <= n <= NSIG
    ensures SelfMasked(DoSignal(s, n, lost)) && SelfMasked(RetFromSyscall(s, o, lost))
    ensures SelfMasked(SysSignal(s, m, h, r).0) && SelfMasked(SysSigaction(s, m, a).0)
            && SelfMasked(SysSsetmask(s, mask).0)
  {
  }

  /** Exactly when a delivery leaves the mask as it found it, and the way back never repairs
      it: the restorer skips the saved mask. */
  lemma MaskKept(s: State, n: nat, lost: set<int>)
    requires 1 <= n <= NSIG && |s.actions| == NSIG
    ensures DoSignal(s, n, lost).blocked == s.blocked
            <==> !Caught(s.actions[n - 1]) || s.actions[n - 1].mask <= s.blocked
  {
    var a := s.actions[n - 1];
    if Caught(a) {
      assert a.mask <= s.blocked <==> s.blocked + a.mask == s.blocked;
    }
  }

  lemma {:induction false} BlockedGrows(m: Machine, lib: Library, events: seq<Event>)
    requires Legal(m, lib, events)
    ensures m.s.blocked <= AfterAll(m, lib, events).s.blocked
    decreases events
  {
    if events != [] {
      BlockedGrows(After(m, lib, events[0]), lib, events[1..]);
    }
  }

  /** So a signal caught without SA_NOMASK is delivered once: through its handler, every nested
      one and all the returns it stays blocked, and the return from a system call does not pick
      it again until the program sets its mask itself. */
  lemma DeliveredOnce(s: State, o: Origin, lost: set<int>, lib: Library, events: seq<Event>)
    requires SelfMasked(s) && ToUser(o) && Lowest(s.signal - s.blocked, 1) != 0
    requires var n := Lowest(s.signal - s.blocked, 1); Caught(s.actions[n - 1]) && !s.actions[n - 1].nomask
    requires Legal(Machine(RetFromSyscall(s, o, lost), []), lib, events)
    ensures var n, u := Lowest(s.signal - s.blocked, 1),
            AfterAll(Machine(RetFromSyscall(s, o, lost), []), lib, events).s;
            && n !in s.blocked && n in u.blocked
            && forall pending: set<nat> :: Lowest(pending - u.blocked, 1) != n
  {
    var n := Lowest(s.signal - s.blocked, 1);
    var m := Machine(RetFromSyscall(s, o, lost), []);
    assert n in m.s.blocked;
    BlockedGrows(m, lib, events);
  }

  /** Which signal a return to user mode delivers, and that it consumes just that one; a return of
      task 0, or to other selectors than those of user code and stack, delivers nothing. */
  lemma PicksLowest(s: State, o: Origin, lost: set<int>, n: nat)
    requires |s.actions| == NSIG && n == Lowest(s.signal - s.blocked, 1)
    ensures n == 0 <==> forall x | 1 <= x <= NSIG :: x in s.signal ==> x in s.blocked
    ensures n == 0 || o.task0 || o.cs % 0x1_0000 != 15 || o.ss % 0x1_0000 != 23 ==> RetFromSyscall(s, o, lost) == s
    ensures n != 0 ==> n in s.signal && n !in s.blocked && forall x | 1 <= x < n :: x in s.signal ==> x in s.blocked
    ensures n != 0 && !o.task0 && o.cs % 0x1_0000 == 15 && o.ss % 0x1_0000 == 23 ==>
              && n <= NSIG
              && RetFromSyscall(s, o, lost) == DoSignal(s, n, lost).(signal := s.signal - {n})
  {
    var pending := s.signal - s.blocked;
    forall x | 1 <= x <= NSIG
      ensures x in pending <==> x in s.signal && x !in s.blocked
    {
    }
  }
}
