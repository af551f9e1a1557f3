/** Counting arguments shared by the other modules. */
module Counting {
  /** Things that sit in different holes 1..k are at most k. */
  lemma Pigeonhole<T>(s: set<T>, hole: T -> int, k: nat)
    requires forall p | p in s :: 1 <= hole(p) <= k
    requires forall p, q | p in s && q in s && hole(p) == hole(q) :: p == q
    ensures |s| <= k
  {
    if p :| p in s && hole(p) == k {
      assert forall q | q in s - {p} :: hole(q) <= k - 1;
      Pigeonhole(s - {p}, hole, k - 1);
    } else if k == 0 {
      assert forall p | p in s :: false;
      assert s == {};
    } else {
      Pigeonhole(s, hole, k - 1);
    }
  }

  /** A set with at most one element. */
  lemma One<T>(s: set<T>, a: T, b: T)
    requires |s| <= 1 && a in s && b in s
    ensures a == b
  {
    assert {a} <= s && |s - {a}| == |s| - 1;
    assert b !in s - {a};
  }

  function Pow2(k: nat): (r: nat)
    ensures r >= 1
  {
    if k == 0 then 1 else 2 * Pow2(k - 1)
  }

  lemma {:induction false} Pow2Sum(a: nat, b: nat)
    ensures Pow2(a + b) == Pow2(a) * Pow2(b)
  {
    if a > 0 {
      Pow2Sum(a - 1, b);
      Double(Pow2(a - 1), Pow2(b));
    }
  }

  lemma Double(x: nat, y: nat)
    ensures 2 * x * y == 2 * (x * y)
  {
  }

  lemma AddMultiple(x: nat, q: nat, d: nat)
    requires d >= 1
    ensures (x + q * d) / d == x / d + q
  {
    var a, r := x / d, x % d;
    assert x + q * d == (a + q) * d + r;
    var b, t := (x + q * d) / d, (x + q * d) % d;
    assert (a + q - b) * d == t - r;
    if a + q - b >= 1 {
      AtLeast(a + q - b, d);
    } else if b - a - q >= 1 {
      AtLeast(b - a - q, d);
    }
  }

  lemma AtLeast(k: nat, d: nat)
    requires k >= 1
    ensures k * d >= d
  {
    assert k * d == d + (k - 1) * d;
    assert (k - 1) * d >= 0;
  }

  lemma WordSize()
    ensures Pow2(32) == 0x1_0000_0000
  {
    assert Pow2(4) == 16;
    Pow2Sum(4, 4);
    Pow2Sum(8, 8);
    Pow2Sum(16, 16);
  }
}
