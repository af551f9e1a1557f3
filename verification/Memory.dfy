/** What each routine of mm/memory.c computes, on values. A physical page address is
    `frame * 4096`; physical memory is one flat sequence of words, and the page directory
    is its first 1024 words, as in the C code, which hard-codes `pg_dir = 0`. */
module Memory {
  import opened Paging

  const LOW_MEM: nat := 0x10_0000
  const USED := 100

  type Byte = b: nat | b < 256

  /** `mem_map`, physical memory and `HIGH_MEMORY`. */
  datatype Physical = Physical(count: seq<Byte>, ram: seq<Word>, high: nat)

  predicate Shape(s: Physical) {
    && |s.count| == 3840
    && |s.ram| == 4096 * 1024
    && 256 * 4096 <= s.high <= 4096 * 4096
  }

  type Mem = s: Physical | Shape(s)
    ghost witness Physical(seq(3840, _ => 0), seq(4194304, _ => ZERO), 1048576)

  /** A kernel computation: a value, `oom()`, or a call of `panic`. */
  datatype Run<+T> = Done(value: T) | Oom | Panic {
    predicate IsFailure() {
      !Done?
    }

    function PropagateFailure<U>(): Run<U>
      requires !Done?
    {
      if Oom? then Oom else Panic
    }

    function Extract(): T
      requires Done?
    {
      value
    }
  }

  // ---------- access ----------

  function Peek(m: Mem, x: nat): Word {
    if x < 4096 * 1024 then m.ram[x] else ZERO
  }

  function Poke(m: Mem, x: nat, w: Word): Mem {
    if x < 4096 * 1024 then m.(ram := m.ram[x := w]) else m
  }

  /** The reference count of a frame; frames outside `mem_map` read as 0. */
  function Count(m: Mem, f: nat): Byte {
    if 256 <= f < 4096 then m.count[f - 256] else 0
  }

  function SetCount(m: Mem, f: nat, c: Byte): Mem {
    if 256 <= f < 4096 then m.(count := m.count[f - 256 := c]) else m
  }

  function Pde(m: Mem, d: nat): Word {
    Peek(m, d)
  }

  function PteIndex(m: Mem, d: nat, i: nat): nat {
    Pde(m, d).frame * 1024 + i
  }

  function Pte(m: Mem, d: nat, i: nat): Word {
    Peek(m, PteIndex(m, d, i))
  }

  /** The directory entry, table entry and word offset a linear byte address selects. */
  function DirOf(addr: nat): nat {
    addr / 0x40_0000
  }

  function TabOf(addr: nat): nat {
    addr / 4096 % 1024
  }

  // ---------- frames ----------

  /** Everything is marked used, then the pages of [start, end) become free. */
  function MemInit(m: Mem, start: nat, end: nat): Mem
    requires LOW_MEM <= start <= end <= 0x100_0000
  {
    m.(count := seq(3840, k requires 0 <= k < 3840 =>
         if (start - LOW_MEM) / 4096 <= k < (start - LOW_MEM) / 4096 + (end - start) / 4096 then 0 else USED),
       high := end)
  }

  /** The highest index below `n` whose count is zero, or -1. */
  function HighestFree(count: seq<Byte>, n: nat): (i: int)
    requires n <= |count|
    ensures -1 <= i < n
    ensures i >= 0 ==> count[i] == 0
    ensures forall k | i < k < n :: count[k] != 0
  {
    if n == 0 then -1
    else if count[n - 1] == 0 then n - 1
    else HighestFree(count, n - 1)
  }

  function ZeroPage(ram: seq<Word>, f: nat): (r: seq<Word>)
    ensures |r| == |ram|
    ensures forall x | 0 <= x < |ram| :: r[x] == if f * 1024 <= x < f * 1024 + 1024 then ZERO else ram[x]
  {
    seq(|ram|, x requires 0 <= x < |ram| => if f * 1024 <= x < f * 1024 + 1024 then ZERO else ram[x])
  }

  /** The page `copy_page(from, to)` writes. */
  function CopyPage(ram: seq<Word>, from: nat, to: nat): (r: seq<Word>)
    requires from * 1024 + 1024 <= |ram|
    ensures |r| == |ram|
    ensures forall x | 0 <= x < |ram| ::
              r[x] == if to * 1024 <= x < to * 1024 + 1024 then ram[from * 1024 + (x - to * 1024)] else ram[x]
  {
    seq(|ram|, x requires 0 <= x < |ram| =>
      if to * 1024 <= x < to * 1024 + 1024 then ram[from * 1024 + (x - to * 1024)] else ram[x])
  }

  /** The frame taken, or 0 when no count is zero. */
  function GetFreePage(m: Mem): (Mem, nat) {
    var i := HighestFree(m.count, 3840);
    if i < 0 then (m, 0)
    else (m.(count := m.count[i := 1], ram := ZeroPage(m.ram, 256 + i)), 256 + i)
  }

  function FreePage(m: Mem, addr: nat): Run<Mem> {
    if addr < LOW_MEM || addr >= m.high then Done(m)
    else
      var k := (addr - LOW_MEM) / 4096;
      if m.count[k] == 0 then Panic
      else Done(m.(count := m.count[k := m.count[k] - 1]))
  }

  // ---------- range teardown ----------

  function FreeEntry(m: Mem, x: nat): Run<Mem> {
    var w := Peek(m, x);
    var m1 :- if w.present then FreePage(m, w.frame * 4096) else Done(m);
    Done(Poke(m1, x, ZERO))
  }

  function FreeEntries(m: Mem, x: nat, n: nat): Run<Mem> {
    if n == 0 then Done(m)
    else
      var m1 :- FreeEntries(m, x, n - 1);
      FreeEntry(m1, x + n - 1)
  }

  function FreeDir(m: Mem, d: nat): Run<Mem> {
    if !Pde(m, d).present then Done(m)
    else
      var m1 :- FreeEntries(m, Pde(m, d).frame * 1024, 1024);
      var m2 :- FreePage(m1, Pde(m1, d).frame * 4096);
      Done(Poke(m2, d, ZERO))
  }

  function FreeDirs(m: Mem, d: nat, n: nat): Run<Mem> {
    if n == 0 then Done(m)
    else
      var m1 :- FreeDirs(m, d, n - 1);
      FreeDir(m1, d + n - 1)
  }

  /** The number of 4MB directory entries that `size` bytes take. */
  function DirCount(size: nat): nat {
    (size + 0x3f_ffff) / 0x40_0000
  }

  function FreePageTables(m: Mem, from: nat, size: nat): Run<Mem> {
    if from % 0x40_0000 != 0 || from == 0 then Panic
    else FreeDirs(m, DirOf(from), DirCount(size))
  }

  // ---------- faults ----------

  function PutPage(m: Mem, f: Frame, addr: nat): (Mem, bool) {
    var d := DirOf(addr);
    if Pde(m, d).present then (Poke(m, PteIndex(m, d, TabOf(addr)), Grant(f)), true)
    else
      var (m1, g) := GetFreePage(m);
      if g == 0 then (m1, false)
      else
        var m2 := Poke(m1, d, Grant(g));
        (Poke(m2, g * 1024 + TabOf(addr), Grant(f)), true)
  }

  function DoNoPage(m: Mem, addr: nat): Run<Mem> {
    var (m1, f) := GetFreePage(m);
    if f == 0 then Oom
    else
      var (m2, ok) := PutPage(m1, f, addr / 4096 * 4096);
      if ok then Done(m2)
      else
        var _ :- FreePage(m2, f * 4096);
        Oom
  }

  /** `x` is the word index of the entry. The body in the source never copies the old page
      (`copies == false`), although its comment says it does (`copies == true`). */
  function UnWpPage(m: Mem, x: nat, copies: bool): Run<Mem> {
    var e := Peek(m, x);
    if e.frame >= 256 && Count(m, e.frame) == 1 then Done(Poke(m, x, ReadWrite(e)))
    else
      var (m1, g) := GetFreePage(m);
      if g == 0 then Oom
      else
        var m2 := if copies && e.frame < 4096 then m1.(ram := CopyPage(m1.ram, e.frame, g)) else m1;
        var m3 := if e.frame >= 256 then SetCount(m2, e.frame, (Count(m2, e.frame) + 255) % 256) else m2;
        Done(Poke(m3, x, Grant(g)))
  }

  function DoWpPage(m: Mem, addr: nat, copies: bool): Run<Mem> {
    UnWpPage(m, PteIndex(m, DirOf(addr), TabOf(addr)), copies)
  }

  function WriteVerify(m: Mem, addr: nat, copies: bool): Run<Mem> {
    if !Pde(m, DirOf(addr)).present then Done(m)
    else
      var x := PteIndex(m, DirOf(addr), TabOf(addr));
      if Peek(m, x).present && !Peek(m, x).writable then UnWpPage(m, x, copies) else Done(m)
  }

  /** mm/page.s: bit 0 of the error code selects the handler. */
  function PageFault(m: Mem, code: nat, addr: nat, copies: bool): Run<Mem> {
    if code % 2 != 0 then DoWpPage(m, addr, copies) else DoNoPage(m, addr)
  }

  // ---------- sharing on fork ----------

  datatype Copy = Copied(mem: Mem) | NoMemory(mem: Mem) | Exists

  function CopyEntry(m: Mem, x: nat, y: nat): Mem {
    var w := Peek(m, x);
    if !w.present then m
    else
      var ro := ReadOnly(w);
      var m1 := Poke(m, y, ro);
      if ro.frame < 256 then m1
      else SetCount(Poke(m1, x, ro), ro.frame, (Count(m1, ro.frame) + 1) % 256)
  }

  function CopyEntries(m: Mem, x: nat, y: nat, n: nat): Mem {
    if n == 0 then m
    else CopyEntry(CopyEntries(m, x, y, n - 1), x + n - 1, y + n - 1)
  }

  function CopyDir(m: Mem, f: nat, t: nat, nr: nat): Copy {
    if Pde(m, t).present then Exists
    else if !Pde(m, f).present then Copied(m)
    else
      var (m1, g) := GetFreePage(m);
      if g == 0 then NoMemory(m1)
      else Copied(CopyEntries(Poke(m1, t, Grant(g)), Pde(m, f).frame * 1024, g * 1024, nr))
  }

  function CopyDirs(m: Mem, f: nat, t: nat, n: nat, nr: nat): Copy {
    if n == 0 then Copied(m)
    else
      match CopyDirs(m, f, t, n - 1, nr)
      case Copied(m1) => CopyDir(m1, f + n - 1, t + n - 1, nr)
      case other => other
  }

  /** Only 640KB are shared when copying from the kernel image at address 0. */
  function EntriesCopied(from: nat): nat {
    if from == 0 then 0xA0 else 1024
  }

  function CopyPageTables(m: Mem, from: nat, to: nat, size: nat): Run<Copy> {
    if from % 0x40_0000 != 0 || to % 0x40_0000 != 0 then Panic
    else Done(CopyDirs(m, DirOf(from), DirOf(to), DirCount(size), EntriesCopied(from)))
  }
}
