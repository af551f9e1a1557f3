/** The 32-bit page entry format of Intel SDM volume 3A, section 4.3: bits 31..12 name a
    frame, bit 2 is U/S, bit 1 is R/W and bit 0 is P. Every word of physical memory is
    viewed through this layout, so a page table and user data live in the same memory. */
module Paging {
  type Frame = f: nat | f < 0x10_0000
  type Avail = a: nat | a < 0x200
  type Word32 = n: nat | n < 0x1_0000_0000

  datatype Word = Word(frame: Frame, avail: Avail, user: bool, writable: bool, present: bool)

  /** The zero word: an absent entry. */
  const ZERO := Word(0, 0, false, false, false)

  /** The entry the C code writes as `page | 7` for a page-aligned address. */
  function Grant(f: Frame): Word {
    Word(f, 0, true, true, true)
  }

  /** `entry & ~2` and `entry | 2`. */
  function ReadOnly(w: Word): Word {
    w.(writable := false)
  }

  function ReadWrite(w: Word): Word {
    w.(writable := true)
  }

  function Bit(b: bool): nat {
    if b then 1 else 0
  }

  /** The number stored in memory for a word. */
  function Value(w: Word): Word32 {
    w.frame * 4096 + w.avail * 8 + Bit(w.user) * 4 + Bit(w.writable) * 2 + Bit(w.present)
  }

  /** The layout of a number read from memory. */
  function Decode(n: Word32): Word {
    Word(n / 4096, n / 8 % 512, n / 4 % 2 == 1, n / 2 % 2 == 1, n % 2 == 1)
  }

  lemma DecodeValue(w: Word)
    ensures Decode(Value(w)) == w
  {
    var n: nat, f: nat, a: nat, u, r := Value(w), w.frame, w.avail, Bit(w.user), Bit(w.writable);
    var half := f * 2048 + a * 4 + u * 2 + r;
    Halves(n, half, Bit(w.present));
    Halves(half, f * 1024 + a * 2 + u, r);
    Halves(f * 1024 + a * 2 + u, f * 512 + a, u);
    assert n / 4 == f * 1024 + a * 2 + u && n / 8 == f * 512 + a;
    assert (f * 512 + a) / 512 == f && (f * 512 + a) % 512 == a;
    assert n / 4096 == f;
  }

  lemma Halves(n: nat, h: nat, b: nat)
    requires n == h * 2 + b && b < 2
    ensures n / 2 == h && n % 2 == b
  {
  }

  lemma SplitQuotient(n: nat, a: nat, b: nat)
    requires (a, b) in {(2, 2), (4, 2), (8, 512)}
    ensures n / a == n / (a * b) * b + n / a % b
  {
    if a == 2 {
      assert n / 2 / 2 == n / 4;
    } else if a == 4 {
      assert n / 4 / 2 == n / 8;
    } else {
      assert n / 8 / 512 == n / 4096;
    }
  }

  lemma ValueDecode(n: Word32)
    ensures Value(Decode(n)) == n
  {
    SplitQuotient(n, 2, 2);
    SplitQuotient(n, 4, 2);
    SplitQuotient(n, 8, 512);
    assert n == n / 2 * 2 + n % 2;
  }

  lemma Remainder(n: nat, q: nat, k: nat, r: nat)
    requires (k == 4 || k == 4096) && n == q * k + r && r < k
    ensures n % k == r
  {
  }

  /** What the masks and the comparison of the C code do to the stored number:
      `e & 0xfffff000`, `page | 7`, `e & ~2`, `e | 2`, `(e & 3) == 1`, and, for a present
      entry, `e > LOW_MEM`, which holds of the frame LOW_MEM itself because P is set. */
  lemma EntryArithmetic(w: Word)
    ensures Value(w) - Value(w) % 4096 == w.frame * 4096
    ensures Value(Grant(w.frame)) == w.frame * 4096 + 7
    ensures Value(ReadOnly(w)) == Value(w) - (if w.writable then 2 else 0)
    ensures Value(ReadWrite(w)) == Value(w) + (if w.writable then 0 else 2)
    ensures Value(w) % 4 == 1 <==> w.present && !w.writable
    ensures w.present ==> (Value(w) > 0x10_0000 <==> w.frame >= 256)
  {
    var low := w.avail * 8 + Bit(w.user) * 4 + Bit(w.writable) * 2 + Bit(w.present);
    assert Value(w) == w.frame * 4096 + low && low < 4096;
    Remainder(Value(w), w.frame, 4096, low);
    var upper := w.frame as nat * 1024 + w.avail as nat * 2 + Bit(w.user);
    assert Value(w) == upper * 4 + (Bit(w.writable) * 2 + Bit(w.present));
    Remainder(Value(w), upper, 4, Bit(w.writable) * 2 + Bit(w.present));
  }
}
