/** do_signal, ret_from_syscall and the two restorers in place: the saved registers, the words
    of the user stack, the masks and the action table are overwritten one by one. */
module SignalDelivery {
  import opened Signals

  class Context {
    var eax: int
    var ecx: int
    var edx: int
    var eflags: int
    var eip: int
    var esp: int
    var stack: map<int, int>
    var signal: set<nat>
    var blocked: set<nat>
    const sigaction: array<Action>

    constructor (sigaction: array<Action>)
      ensures this.sigaction == sigaction
    {
      this.sigaction := sigaction;
      eax, ecx, edx, eflags, eip, esp := 0, 0, 0, 0, 0, 0;
      stack, signal, blocked := map[], {}, {};
    }

    function Registers(): Cpu
      reads this
    {
      Cpu(eax, ecx, edx, eflags, eip, esp)
    }

    function View(): State
      reads this, sigaction
    {
      State(Registers(), stack, signal, blocked, sigaction[..])
    }

    /** put_fs_long after the words already pushed. */
    method PutLong(word: int, at: int, ghost before: map<int, int>, ghost base: int, ghost words: seq<int>)
      returns (next: int)
      requires stack == Store(before, base, words) && at == base + 4 * |words|
      modifies this`stack
      ensures stack == Store(before, base, words + [word]) && next == base + 4 * |words + [word]|
    {
      StoreMore(before, base, words, word);
      stack := stack[at := word];
      next := at + 4;
    }

    /** write_verify, as far as the stack sees it: un_wp_page loses the pages `lost`. */
    method WriteVerify(page: int, lost: set<int>)
      modifies this`stack
      ensures stack == WipedPages(old(stack), page, page + 1, lost)
    {
      if page in lost {
        stack := map a | a in stack && Page(a) != page :: stack[a];
      }
    }

    /** verify_area, page by page. */
    method VerifyArea(addr: int, size: nat, lost: set<int>)
      modifies this`stack
      ensures stack == Wiped(old(stack), addr, size, lost)
    {
      var start := addr - addr % 4096;
      var left := size + addr % 4096;
      while left > 0
        invariant start % 4096 == 0 && left == addr + size - start && left > -4096
        invariant Page(addr) <= start / 4096
        invariant stack == WipedPages(old(stack), Page(addr), start / 4096, lost)
        decreases left
      {
        left := left - 4096;
        WriteVerify(start / 4096, lost);
        start := start + 4096;
      }
      assert start / 4096 == Page(addr + size - 1) + 1;
    }

    method DoSignal(signr: nat, lost: set<int>)
      requires 1 <= signr <= NSIG && sigaction.Length == NSIG
      modifies this, sigaction
      ensures View() == Signals.DoSignal(old(View()), signr, lost)
      ensures var a := old(sigaction[signr - 1]);
              if Caught(a) then Framed(View(), old(View()), a) else View() == old(View())
    {
      var sa := sigaction[signr - 1];
      var handler := sa.handler;
      if handler == 1 {
        return;
      }
      if handler == 0 {
        return;
      }
      var oldEip := eip;
      if sa.oneshot {
        sigaction[signr - 1] := sa.(handler := 0);
      }
      eip := handler;
      var longs := if sa.nomask then 7 else 8;
      esp := esp - 4 * longs;
      VerifyArea(esp, longs * 4, lost);
      PushFrame(sa, signr, oldEip);
      blocked := blocked + sa.mask;
      assert View() == Signals.DoSignal(old(View()), signr, lost);
      FrameHeld(old(View()), signr, lost);
    }

    /** sys_signal: the old handler, or -1. */
    method SysSignal(signum: int, handler: int, restorer: int) returns (r: int)
      requires sigaction.Length == NSIG
      modifies sigaction
      ensures (View(), r) == Signals.SysSignal(old(View()), signum, handler, restorer)
    {
      if signum < 1 || signum > 32 || signum == SIGKILL {
        return -1;
      }
      r := sigaction[signum - 1].handler;
      sigaction[signum - 1] := Action(handler, {}, true, true, restorer);
    }

    /** sys_sigaction; the old action is what save_old copies out. */
    method SysSigaction(signum: int, action: Action) returns (r: int, saved: Action)
      requires sigaction.Length == NSIG
      modifies sigaction
      ensures (View(), r) == Signals.SysSigaction(old(View()), signum, action)
      ensures r == 0 ==> 1 <= signum <= NSIG && saved == old(sigaction[signum - 1])
    {
      saved := action;
      if signum < 1 || signum > 32 || signum == SIGKILL {
        return -1, saved;
      }
      saved := sigaction[signum - 1];
      sigaction[signum - 1] := action;
      if sigaction[signum - 1].nomask {
        sigaction[signum - 1] := sigaction[signum - 1].(mask := {});
      } else {
        sigaction[signum - 1] := sigaction[signum - 1].(mask := sigaction[signum - 1].mask + {signum as nat});
      }
      assert sigaction[..] == Signals.SysSigaction(old(View()), signum, action).0.actions;
      r := 0;
    }

    /** sys_ssetmask. */
    method SysSsetmask(newmask: set<nat>) returns (before: set<nat>)
      modifies this`blocked
      ensures (View(), before) == Signals.SysSsetmask(old(View()), newmask)
    {
      before := blocked;
      blocked := newmask - {SIGKILL};
    }

    /** The put_fs_long calls of do_signal. */
    method PushFrame(sa: Action, signr: nat, oldEip: int)
      modifies this`stack
      ensures stack == Store(old(stack), esp,
                             [sa.restorer, signr] + (if sa.nomask then [] else [MaskWord(blocked, NSIG)])
                               + [eax, ecx, edx, eflags, oldEip])
    {
      ghost var before, words := stack, [];
      var tmp := PutLong(sa.restorer, esp, before, esp, words);
      words := words + [sa.restorer];
      tmp := PutLong(signr, tmp, before, esp, words);
      words := words + [signr];
      if !sa.nomask {
        tmp := PutLong(MaskWord(blocked, NSIG), tmp, before, esp, words);
        words := words + [MaskWord(blocked, NSIG)];
      }
      ghost var head := words;
      assert head == [sa.restorer, signr] + (if sa.nomask then [] else [MaskWord(blocked, NSIG)]);
      tmp := PutLong(eax, tmp, before, esp, words);
      words := words + [eax];
      tmp := PutLong(ecx, tmp, before, esp, words);
      words := words + [ecx];
      tmp := PutLong(edx, tmp, before, esp, words);
      words := words + [edx];
      tmp := PutLong(eflags, tmp, before, esp, words);
      words := words + [eflags];
      tmp := PutLong(oldEip, tmp, before, esp, words);
      words := words + [oldEip];
      assert words == head + [eax, ecx, edx, eflags, oldEip];
    }

    /** One `popl`. */
    method Pop() returns (word: int)
      modifies this`esp
      ensures word == Load(stack, old(esp)) && esp == old(esp) + 4
    {
      word := Load(stack, esp);
      esp := esp + 4;
    }

    /** The five pops the restorers share. */
    method PopRegisters()
      modifies this`eax, this`ecx, this`edx, this`eflags, this`eip, this`esp
      ensures Registers() == Execute(old(Registers()), stack, TAIL)
    {
      PlainTail(Registers(), stack);
      eax := Pop();
      ecx := Pop();
      edx := Pop();
      eflags := Pop();
      eip := Pop();
    }

    /** __sig_restore. */
    method SigRestore()
      modifies this`eax, this`ecx, this`edx, this`eflags, this`eip, this`esp
      ensures Registers() == Execute(old(Registers()), stack, SIG_RESTORE)
    {
      assert SIG_RESTORE[1..] == TAIL;
      esp := esp + 4;
      PopRegisters();
    }

    /** __masksig_restore. */
    method MaskSigRestore()
      modifies this`eax, this`ecx, this`edx, this`eflags, this`eip, this`esp
      ensures Registers() == Execute(old(Registers()), stack, MASKSIG_RESTORE)
    {
      assert SIG_RESTORE[1..] == TAIL && MASKSIG_RESTORE[1..] == SIG_RESTORE;
      esp := esp + 4;
      esp := esp + 4;
      PopRegisters();
    }

    /** The `bsf` of ret_from_syscall, bit by bit; 0 when no bit is set. */
    method FindSignal() returns (n: nat)
      ensures n == Lowest(signal - blocked, 1)
    {
      var i := 1;
      while i <= NSIG
        invariant 1 <= i <= NSIG + 1
        invariant Lowest(signal - blocked, 1) == Lowest(signal - blocked, i)
      {
        if i in signal && i !in blocked {
          return i;
        }
        i := i + 1;
      }
      n := 0;
    }

    /** ret_from_syscall. */
    method ReturnFromSyscall(o: Origin, lost: set<int>)
      requires sigaction.Length == NSIG
      modifies this, sigaction
      ensures View() == RetFromSyscall(old(View()), o, lost)
    {
      if o.task0 || o.cs % 0x1_0000 != 0x0f || o.ss % 0x1_0000 != 0x17 {
        return;
      }
      var n := FindSignal();
      if n != 0 {
        signal := signal - {n};
        DoSignal(n, lost);
      }
    }
  }

  /** The stack of t starts with the frame of s, the bits of the mask included. */
  ghost predicate Framed(t: State, s: State, a: Action) {
    && Holds(t.stack, t.cpu.esp, a, s.cpu)
    && (!a.nomask ==> IsMask(Load(t.stack, t.cpu.esp + 8), s.blocked))
  }

  lemma FrameHeld(s: State, n: nat, lost: set<int>)
    requires 1 <= n <= NSIG && |s.actions| == NSIG && Caught(s.actions[n - 1])
    ensures var t, a := Signals.DoSignal(s, n, lost), s.actions[n - 1];
            Framed(t, s, a)
  {
    Delivers(s, n, lost);
  }

  /** The lost ones of the pages first..next-1 read as zeros. */
  function WipedPages(stack: map<int, int>, first: int, next: int, lost: set<int>): map<int, int> {
    map a | a in stack && !(Page(a) in lost && first <= Page(a) < next) :: stack[a]
  }

  lemma {:induction false} StoreMore(m: map<int, int>, base: int, words: seq<int>, w: int)
    ensures Store(m, base, words + [w]) == Store(m, base, words)[base + 4 * |words| := w]
    decreases words
  {
    if words == [] {
      assert words + [w] == [w];
      assert [w][1..] == [];
      assert Store(m, base, [w]) == m[base := w];
    } else {
      assert (words + [w])[1..] == words[1..] + [w];
      StoreMore(m[base := words[0]], base + 4, words[1..], w);
    }
  }
}
