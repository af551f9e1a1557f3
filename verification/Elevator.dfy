/** The queue order of the disk elevator: IN_ORDER (kernel/blk_drv/blk.h) and the place
    add_request (kernel/blk_drv/request_scan_algo.c) gives a request. */
module Elevator {
  datatype Key = Key(cmd: int, dev: int, sector: nat)

  /** IN_ORDER with the parentheses the macro has: the test of the sectors does not depend on
      the commands. */
  predicate InOrder(a: Key, b: Key) {
    a.cmd < b.cmd || ((a.cmd == b.cmd && a.dev < b.dev) || (a.dev == b.dev && a.sector < b.sector))
  }

  /** When the macro orders two requests both ways: same device, and the smaller command goes
      with the larger sector. */
  lemma Ambiguous(a: Key, b: Key)
    ensures InOrder(a, b) && InOrder(b, a) <==>
              a.dev == b.dev && ((a.cmd < b.cmd && b.sector < a.sector) || (b.cmd < a.cmd && a.sector < b.sector))
    ensures !InOrder(a, b) && !InOrder(b, a) <==> a == b
  {
  }

  /** The lexicographic order of command, device and sector. */
  predicate Lex(a: Key, b: Key) {
    a.cmd < b.cmd || (a.cmd == b.cmd && (a.dev < b.dev || (a.dev == b.dev && a.sector < b.sector)))
  }

  predicate Both(a: Key, b: Key) {
    InOrder(a, b) && InOrder(b, a)
  }

  /** No two of the keys are ordered both ways. */
  ghost predicate Unambiguous(keys: set<Key>) {
    forall a, b | a in keys && b in keys :: !Both(a, b)
  }

  /** Only between ambiguous pairs does the macro differ from the lexicographic order. */
  lemma MacroIsLex(a: Key, b: Key)
    ensures !Both(a, b) ==> (InOrder(a, b) <==> Lex(a, b))
    ensures Lex(a, b) ==> InOrder(a, b)
  {
  }

  lemma OneCommandPlain(keys: set<Key>, c: int)
    requires forall k | k in keys :: k.cmd == c
    ensures Unambiguous(keys)
  {
    forall a, b | a in keys && b in keys
      ensures !Both(a, b)
    {
      Ambiguous(a, b);
    }
  }

  ghost predicate Within(q: seq<Key>, keys: set<Key>) {
    forall k | k in q :: k in keys
  }

  // ---------- add_request ----------

  /** The loop leaves off at k. */
  predicate Fits(q: seq<Key>, r: Key, k: nat) {
    k + 1 < |q| && (InOrder(q[k], r) || !InOrder(q[k], q[k + 1])) && InOrder(r, q[k + 1])
  }

  function Position(q: seq<Key>, r: Key, k: nat): (p: nat)
    requires k < |q|
    ensures k <= p < |q| && (p + 1 == |q| || Fits(q, r, p))
    ensures forall i | k <= i < p :: !Fits(q, r, i)
    decreases |q| - k
  {
    if k + 1 == |q| || Fits(q, r, k) then k else Position(q, r, k + 1)
  }

  function Inserted<T>(q: seq<T>, r: T, p: nat): (s: seq<T>)
    requires p < |q|
    ensures |s| == |q| + 1 && s[p + 1] == r
    ensures forall i | 0 <= i <= p :: s[i] == q[i]
    ensures forall i | p < i < |q| :: s[i + 1] == q[i]
  {
    q[..p + 1] + [r] + q[p + 1..]
  }

  function Insert(q: seq<Key>, r: Key): seq<Key> {
    if q == [] then [r] else Inserted(q, r, Position(q, r, 0))
  }

  lemma InsertKeeps(q: seq<Key>, r: Key)
    ensures multiset(Insert(q, r)) == multiset(q) + multiset{r}
    ensures q != [] ==> Insert(q, r)[0] == q[0]
  {
    if q != [] {
      var p := Position(q, r, 0);
      assert q == q[..p + 1] + q[p + 1..];
    }
  }

  // ---------- one descent ----------

  predicate Descent(q: seq<Key>, i: nat) {
    i + 1 < |q| && !InOrder(q[i], q[i + 1])
  }

  /** One ascending run, followed by at most one more. */
  ghost predicate TwoSweeps(q: seq<Key>) {
    forall i: nat, j: nat | Descent(q, i) && Descent(q, j) :: i == j
  }

  /** Requests lo..hi-1 are sorted: each is in order with every later one, and only that way. */
  ghost predicate Sorted(q: seq<Key>, lo: nat, hi: nat) {
    forall i, j | lo <= i < j < hi <= |q| :: InOrder(q[i], q[j]) && !InOrder(q[j], q[i])
  }

  ghost predicate NoDescent(q: seq<Key>, lo: nat, hi: nat) {
    forall k: nat | lo <= k && k + 1 < hi :: !Descent(q, k)
  }

  lemma {:induction false} Ascends(q: seq<Key>, i: nat, j: nat)
    requires i < j < |q| && NoDescent(q, i, j + 1) && forall k | i <= k < j :: !Both(q[k], q[k + 1])
    ensures Lex(q[i], q[j])
    decreases j - i
  {
    assert !Descent(q, j - 1);
    assert !Both(q[j - 1], q[j - 1 + 1]);
    if i < j - 1 {
      Ascends(q, i, j - 1);
    }
  }

  /** A stretch in which the macro finds no descent is sorted if and only if the macro orders no
      two of its requests both ways. */
  lemma SortedIff(q: seq<Key>, lo: nat, hi: nat)
    requires lo <= hi <= |q| && NoDescent(q, lo, hi)
    ensures Sorted(q, lo, hi) <==> forall i, j | lo <= i < j < hi :: !Both(q[i], q[j])
  {
    if forall i, j | lo <= i < j < hi :: !Both(q[i], q[j]) {
      forall i, j | lo <= i < j < hi
        ensures InOrder(q[i], q[j]) && !InOrder(q[j], q[i])
      {
        Ascends(q, i, j);
        assert !Both(q[i], q[j]);
      }
    }
  }

  /** So one command's runs are sorted, be there one of them or two. */
  lemma SweepsSorted(q: seq<Key>, c: int, lo: nat, hi: nat)
    requires lo <= hi <= |q| && NoDescent(q, lo, hi) && forall i | lo <= i < hi :: q[i].cmd == c
    ensures Sorted(q, lo, hi)
  {
    forall i, j | lo <= i < j < hi
      ensures !Both(q[i], q[j])
    {
      Ambiguous(q[i], q[j]);
    }
    SortedIff(q, lo, hi);
  }

  lemma AscendsWithin(q: seq<Key>, keys: set<Key>, i: nat, j: nat)
    requires Unambiguous(keys) && Within(q, keys) && i < j < |q| && NoDescent(q, i, j + 1)
    ensures Lex(q[i], q[j])
  {
    forall k | i <= k < j
      ensures !Both(q[k], q[k + 1])
    {
      assert q[k] in q && q[k + 1] in q;
    }
    Ascends(q, i, j);
  }

  lemma DescentsAfter(q: seq<Key>, r: Key, p: nat, i: nat)
    requires p < |q|
    ensures var s := Inserted(q, r, p);
            && (i < p ==> Descent(s, i) == Descent(q, i))
            && (i > p ==> Descent(s, i + 1) == Descent(q, i))
            && (Descent(s, p) <==> !InOrder(q[p], r))
            && (Descent(s, p + 1) <==> p + 1 < |q| && !InOrder(r, q[p + 1]))
  {
  }

  predicate Gap(q: seq<Key>, r: Key, k: nat) {
    k + 1 < |q| && InOrder(q[k], r) && InOrder(r, q[k + 1])
  }

  /** A gap of the current sweep takes r. */
  ghost predicate Between(q: seq<Key>, r: Key, d: nat) {
    exists k: nat :: k < d && Gap(q, r, k)
  }

  /** r is already waiting in the second sweep, which starts after d. */
  ghost predicate Waiting(q: seq<Key>, r: Key, d: nat) {
    exists j :: d < j < |q| && q[j] == r
  }

  ghost predicate Doubled(q: seq<Key>, r: Key) {
    exists d: nat :: Descent(q, d) && Waiting(q, r, d) && !Between(q, r, d)
  }

  lemma FoundKeeps(q: seq<Key>, r: Key, p: nat)
    requires TwoSweeps(q) && Fits(q, r, p)
    ensures TwoSweeps(Inserted(q, r, p))
  {
    var s := Inserted(q, r, p);
    forall i: nat, j: nat | Descent(s, i) && Descent(s, j)
      ensures i == j
    {
      OldDescent(q, r, p, i);
      OldDescent(q, r, p, j);
    }
  }

  /** Where a descent of the new queue was in the old one. */
  lemma OldDescent(q: seq<Key>, r: Key, p: nat, i: nat)
    requires Fits(q, r, p) && Descent(Inserted(q, r, p), i)
    ensures i != p + 1 && Descent(q, if i <= p then i else i - 1)
  {
    DescentsAfter(q, r, p, i);
    if i > p + 1 {
      DescentsAfter(q, r, p, i - 1);
    }
  }

  lemma FoundFresh(q: seq<Key>, r: Key, keys: set<Key>, p: nat)
    requires Unambiguous(keys) && Within(q, keys) && r in keys && TwoSweeps(q) && Fits(q, r, p)
    ensures !Doubled(q, r)
  {
    forall d: nat | Descent(q, d) && Waiting(q, r, d)
      ensures Between(q, r, d)
    {
      var j :| d < j < |q| && q[j] == r;
      assert q[p] in q && q[p + 1] in q;
      assert forall k: nat | k != d :: !Descent(q, k);
      if p + 1 < j && d <= p {
        AscendsWithin(q, keys, p + 1, j);
      }
      if d < p && j < p {
        AscendsWithin(q, keys, j, p);
      }
      assert p != d ==> !Descent(q, p) && Gap(q, r, p);
    }
  }

  /** Walking the second sweep past r without a fit ends at r itself. */
  lemma {:induction false} Meets(q: seq<Key>, r: Key, j: nat)
    requires j < |q| && !InOrder(r, q[j])
    requires !InOrder(q[|q| - 1], r) && forall i | j <= i < |q| :: !Fits(q, r, i)
    ensures exists i :: j <= i < |q| && q[i] == r
    decreases |q| - j
  {
    if q[j] != r && j + 1 < |q| {
      assert !Fits(q, r, j);
      Meets(q, r, j + 1);
    }
  }

  /** No place fits, so r goes to the end. */
  ghost predicate Appended(q: seq<Key>, r: Key) {
    q != [] && forall k: nat :: !Fits(q, r, k)
  }

  lemma AppendedDescents(q: seq<Key>, r: Key, i: nat)
    requires Appended(q, r)
    ensures Insert(q, r) == Inserted(q, r, |q| - 1)
    ensures Descent(Insert(q, r), i) <==> Descent(q, i) || (i == |q| - 1 && !InOrder(q[|q| - 1], r))
  {
    DescentsAfter(q, r, |q| - 1, i);
  }

  /** The one way to a third run: there are two already, nowhere fits, and the request is not in
      order after the last one. */
  ghost predicate ThirdSweep(q: seq<Key>, r: Key) {
    Appended(q, r) && (exists d: nat :: Descent(q, d)) && !InOrder(q[|q| - 1], r)
  }

  /** Whatever the commands, an insertion keeps the queue to two sweeps exactly if it is not
      that. */
  lemma InsertShape(q: seq<Key>, r: Key)
    requires TwoSweeps(q)
    ensures TwoSweeps(Insert(q, r)) <==> !ThirdSweep(q, r)
  {
    if q != [] {
      var p, n, s := Position(q, r, 0), |q|, Insert(q, r);
      if Fits(q, r, p) {
        FoundKeeps(q, r, p);
      } else {
        assert Appended(q, r);
        forall i: nat
          ensures Descent(s, i) <==> Descent(q, i) || (i == n - 1 && !InOrder(q[n - 1], r))
        {
          AppendedDescents(q, r, i);
        }
        if d: nat :| Descent(q, d) {
          assert Descent(s, d) && d < n - 1;
          if !InOrder(q[n - 1], r) {
            assert Descent(s, n - 1);
          }
        }
      }
    }
  }

  lemma ThirdIsDoubled(q: seq<Key>, r: Key, d: nat)
    requires Appended(q, r) && Descent(q, d) && !InOrder(q[|q| - 1], r)
    ensures Waiting(q, r, d) && Doubled(q, r)
  {
    assert !Fits(q, r, d);
    Meets(q, r, d + 1);
    if k: nat :| k < d && Gap(q, r, k) {
      assert Fits(q, r, k);
    }
  }

  /** Where the macro orders no pair both ways, that is a request already waiting in the second
      sweep that the current one does not take. */
  lemma InsertDoubled(q: seq<Key>, r: Key, keys: set<Key>)
    requires Unambiguous(keys) && Within(q, keys) && r in keys && TwoSweeps(q)
    ensures ThirdSweep(q, r) <==> Doubled(q, r)
  {
    if ThirdSweep(q, r) {
      var d: nat :| Descent(q, d);
      ThirdIsDoubled(q, r, d);
    }
    if d: nat :| Descent(q, d) && Waiting(q, r, d) && !Between(q, r, d) {
      var j, n :| d < j < n == |q| && q[j] == r;
      forall p: nat
        ensures !Fits(q, r, p)
      {
        if Fits(q, r, p) {
          FoundFresh(q, r, keys, p);
        }
      }
      assert forall k: nat | k != d :: !Descent(q, k);
      if j < n - 1 {
        AscendsWithin(q, keys, j, n - 1);
        assert q[n - 1] in q && !Both(q[n - 1], r);
      }
    }
  }

  /** A request that is not queued yet keeps the queue to two sweeps, whatever the commands. */
  lemma InsertNew(q: seq<Key>, r: Key)
    requires TwoSweeps(q) && r !in q
    ensures TwoSweeps(Insert(q, r))
  {
    InsertShape(q, r);
    if ThirdSweep(q, r) {
      var d: nat :| Descent(q, d);
      ThirdIsDoubled(q, r, d);
    }
  }

  // ---------- runs ----------

  datatype Op = Add(r: Key) | Serve

  function Apply(q: seq<Key>, op: Op): seq<Key> {
    match op
    case Add(r) => Insert(q, r)
    case Serve => if q == [] then q else q[1..]
  }

  /** No request is added while an equal one is queued. */
  ghost predicate Fresh(q: seq<Key>, ops: seq<Op>)
    decreases ops
  {
    ops == [] || ((ops[0].Add? ==> ops[0].r !in q) && Fresh(Apply(q, ops[0]), ops[1..]))
  }

  function ApplyAll(q: seq<Key>, ops: seq<Op>): seq<Key>
    decreases ops
  {
    if ops == [] then q else ApplyAll(Apply(q, ops[0]), ops[1..])
  }

  lemma OpKeeps(q: seq<Key>, op: Op)
    requires TwoSweeps(q) && (op.Add? ==> op.r !in q)
    ensures TwoSweeps(Apply(q, op))
  {
    match op
    case Add(r) =>
      InsertNew(q, r);
    case Serve =>
      if q != [] {
        forall i: nat, j: nat | Descent(q[1..], i) && Descent(q[1..], j)
          ensures i == j
        {
          assert Descent(q, i + 1) && Descent(q, j + 1);
        }
      }
  }

  /** Over any interleaving of head removals and insertions of requests that are not already
      queued, the macro sees at most two ascending runs. */
  lemma {:induction false} TwoSweepsAlways(q: seq<Key>, ops: seq<Op>)
    requires TwoSweeps(q) && Fresh(q, ops)
    ensures TwoSweeps(ApplyAll(q, ops))
    decreases ops
  {
    if ops != [] {
      OpKeeps(q, ops[0]);
      TwoSweepsAlways(Apply(q, ops[0]), ops[1..]);
    }
  }

  /** Mixed commands can bring an ambiguous pair together: a write, a read further on and a write
      further back make one run by the macro, which is not sorted. */
  lemma MixedNotSorted(dev: int, x: nat)
    requires x > 0
    ensures var q := [Key(1, dev, x), Key(0, dev, x + 1), Key(1, dev, x - 1)];
            && q == Insert(Insert([Key(1, dev, x)], Key(0, dev, x + 1)), Key(1, dev, x - 1))
            && NoDescent(q, 0, 3) && !InOrder(q[0], q[2]) && InOrder(q[2], q[0])
  {
    var a, b, c := Key(1, dev, x), Key(0, dev, x + 1), Key(1, dev, x - 1);
    assert Insert([a], b) == [a, b];
    assert !Fits([a, b], c, 0);
    assert Position([a, b], c, 0) == Position([a, b], c, 1) == 1;
    assert Insert([a, b], c) == [a, b, c];
  }

  /** An equal request can make a third sweep. */
  lemma EqualRequestsBreak(k: Key)
    ensures TwoSweeps([k, k]) && !TwoSweeps(Insert([k, k], k))
  {
    var q := [k, k];
    var s := Insert(q, k);
    assert Position(q, k, 0) == 1;
    assert s == [k, k, k];
    assert Descent(s, 0) && Descent(s, 1);
  }

  // ---------- which sweep serves a request ----------

  function SweepEnd(q: seq<Key>, k: nat): (m: nat)
    requires k < |q|
    ensures k < m <= |q| && (m < |q| ==> Descent(q, m - 1))
    ensures forall i: nat | k <= i && i + 1 < m :: !Descent(q, i)
    decreases |q| - k
  {
    if k + 1 == |q| || Descent(q, k) then k + 1 else SweepEnd(q, k + 1)
  }

  /** The length of the current sweep. */
  function Sweep(q: seq<Key>): (m: nat)
    requires q != []
  {
    SweepEnd(q, 0)
  }

  /** Where the macro orders no pair both ways, the current sweep takes a new request exactly when
      it lies past the head and, if a second sweep is waiting, before the last request of the
      current one: a request beyond that is left for the second sweep. */
  lemma WhichSweep(q: seq<Key>, r: Key, keys: set<Key>)
    requires q != [] && Unambiguous(keys) && Within(q, keys) && r in keys && r !in q
    ensures Insert(q, r) != []
    ensures Position(q, r, 0) + 1 < Sweep(Insert(q, r)) <==>
              InOrder(q[0], r) && (Sweep(q) == |q| || InOrder(r, q[Sweep(q) - 1]))
  {
    var p, s := Position(q, r, 0), Insert(q, r);
    SweepReaches(s, p + 1);
    ClearAfter(q, r, p);
    if InOrder(q[0], r) && (Sweep(q) == |q| || InOrder(r, q[Sweep(q) - 1])) {
      Lands(q, r, keys, Sweep(q), 0);
      SweepReaches(q, p);
    }
    if InOrder(q[p], r) && Clear(q, p) {
      Taken(q, r, keys, p);
    }
  }

  /** No descent among the first k requests. */
  ghost predicate Clear(q: seq<Key>, k: nat) {
    forall i: nat | i < k :: !Descent(q, i)
  }

  lemma SweepReaches(s: seq<Key>, k: nat)
    requires k < |s|
    ensures k < Sweep(s) <==> Clear(s, k)
  {
  }

  lemma ClearAfter(q: seq<Key>, r: Key, p: nat)
    requires p < |q|
    ensures Clear(Inserted(q, r, p), p + 1) <==> Clear(q, p) && InOrder(q[p], r)
  {
    var s := Inserted(q, r, p);
    forall i: nat | i <= p
      ensures Descent(s, i) <==> if i < p then Descent(q, i) else !InOrder(q[p], r)
    {
      DescentsAfter(q, r, p, i);
    }
    assert Clear(s, p + 1) ==> !Descent(s, p);
  }

  lemma Taken(q: seq<Key>, r: Key, keys: set<Key>, p: nat)
    requires Unambiguous(keys) && Within(q, keys) && r in keys && p < |q| && (p + 1 == |q| || Fits(q, r, p))
    requires InOrder(q[p], r) && Clear(q, p)
    ensures InOrder(q[0], r) && (Sweep(q) == |q| || InOrder(r, q[Sweep(q) - 1]))
  {
    var m := Sweep(q);
    assert q[p] in q;
    if p > 0 {
      AscendsWithin(q, keys, 0, p);
    }
    if m < |q| {
      SweepReaches(q, p);
      if p + 1 < m {
        assert q[p + 1] in q;
        if p + 1 < m - 1 {
          AscendsWithin(q, keys, p + 1, m - 1);
        }
      } else {
        LastNeverTakes(q, r, keys, p);
      }
    }
  }

  /** Nothing fits right after the last request of a sweep and past it. */
  lemma LastNeverTakes(q: seq<Key>, r: Key, keys: set<Key>, p: nat)
    requires Unambiguous(keys) && Within(q, keys) && r in keys && Descent(q, p) && Fits(q, r, p)
    ensures !InOrder(q[p], r)
  {
    assert q[p] in q && q[p + 1] in q;
  }

  /** The first fit of a request inside the current sweep is in order on the left. */
  lemma {:induction false} Lands(q: seq<Key>, r: Key, keys: set<Key>, m: nat, k: nat)
    requires Unambiguous(keys) && Within(q, keys) && r in keys && r !in q && q != [] && m == Sweep(q) && k < m
    requires InOrder(q[k], r) && (m == |q| || InOrder(r, q[m - 1]))
    ensures Position(q, r, k) < m && InOrder(q[Position(q, r, k)], r)
    decreases m - k
  {
    assert q[k] in q;
    if k + 1 < m && !Fits(q, r, k) {
      assert q[k + 1] in q;
      Lands(q, r, keys, m, k + 1);
    }
  }

  // ---------- every request is served ----------

  /** All that is queued or added is among the keys. */
  ghost predicate Among(q: seq<Key>, ops: seq<Op>, keys: set<Key>) {
    Within(q, keys) && forall k | 0 <= k < |ops| && ops[k].Add? :: ops[k].r in keys
  }

  function Serves(ops: seq<Op>): nat {
    if ops == [] then 0 else (if ops[0].Serve? then 1 else 0) + Serves(ops[1..])
  }

  /** Some head removal of the run takes x. */
  ghost predicate ServedIn(q: seq<Key>, ops: seq<Op>, x: Key)
    decreases ops
  {
    ops != [] && ((ops[0].Serve? && q != [] && q[0] == x) || ServedIn(Apply(q, ops[0]), ops[1..], x))
  }

  ghost predicate InSweep(q: seq<Key>, x: Key) {
    exists i :: 0 <= i < |q| && q[i] == x && Clear(q, i)
  }

  /** The keys from a on, and those up to b. */
  ghost function From(keys: set<Key>, a: Key): set<Key> {
    set k | k in keys && !Lex(k, a)
  }

  ghost function UpTo(keys: set<Key>, b: Key): set<Key> {
    set k | k in keys && !Lex(b, k)
  }

  /** What the current sweep can still serve before x and, if x waits for the second one, what
      that can serve before it. */
  ghost function Wait(q: seq<Key>, x: Key, keys: set<Key>): nat
    requires q != []
  {
    if InSweep(q, x) then |From(keys, q[0]) * UpTo(keys, x)| else |From(keys, q[0])| + |UpTo(keys, x)|
  }

  lemma Smaller<T>(a: set<T>, b: set<T>)
    requires a <= b
    ensures |a| <= |b|
  {
    assert b == a + (b - a);
  }

  lemma Fewer<T>(a: set<T>, b: set<T>, x: T)
    requires a <= b && x in b && x !in a
    ensures |a| < |b|
  {
    Smaller(a, b - {x});
  }

  /** An insertion leaves the requests of the current sweep in it. */
  lemma StaysInSweep(q: seq<Key>, r: Key, x: Key)
    requires q != [] && InSweep(q, x)
    ensures InSweep(Insert(q, r), x)
  {
    var i :| 0 <= i < |q| && q[i] == x && Clear(q, i);
    var p, s := Position(q, r, 0), Insert(q, r);
    var at := if i <= p then i else i + 1;
    assert i > p ==> !Descent(q, p) && Fits(q, r, p);
    forall k: nat | k < at
      ensures !Descent(s, k)
    {
      DescentsAfter(q, r, p, k);
      if k > p {
        DescentsAfter(q, r, p, k - 1);
      }
    }
    assert s[at] == x && Clear(s, at);
  }

  lemma AddWaits(q: seq<Key>, r: Key, x: Key, keys: set<Key>)
    requires x in q
    ensures x in Insert(q, r) && Wait(Insert(q, r), x, keys) <= Wait(q, x, keys)
  {
    InsertKeeps(q, r);
    assert x in multiset(q) && x in multiset(Insert(q, r));
    if InSweep(q, x) {
      StaysInSweep(q, r, x);
    } else if InSweep(Insert(q, r), x) {
      Smaller(From(keys, q[0]) * UpTo(keys, x), UpTo(keys, x));
    }
  }

  lemma NextHead(q: seq<Key>, x: Key, keys: set<Key>, i: nat)
    requires Unambiguous(keys) && Within(q, keys) && 0 < i < |q| && q[i] == x && Clear(q, i)
    ensures InSweep(q[1..], x) && InSweep(q, x) && Wait(q[1..], x, keys) < Wait(q, x, keys)
  {
    var u := q[1..];
    forall k: nat | k < i - 1
      ensures !Descent(u, k)
    {
      assert !Descent(q, k + 1);
    }
    assert u[i - 1] == x && Clear(u, i - 1);
    assert NoDescent(q, 0, i + 1);
    AscendsWithin(q, keys, 0, 1);
    AscendsWithin(q, keys, 0, i);
    assert q[0] in q && u[0] in q;
    Fewer(From(keys, u[0]) * UpTo(keys, x), From(keys, q[0]) * UpTo(keys, x), q[0]);
  }

  lemma TailDescent(q: seq<Key>, k: nat)
    requires q != [] && Descent(q[1..], k)
    ensures Descent(q, k + 1)
  {
  }

  lemma BehindHead(q: seq<Key>, x: Key)
    requires q != [] && !Descent(q, 0) && InSweep(q[1..], x)
    ensures InSweep(q, x)
  {
    var u := q[1..];
    var i :| 0 <= i < |u| && u[i] == x && Clear(u, i);
    forall k: nat | k < i + 1
      ensures !Descent(q, k)
    {
      assert k > 0 ==> !Descent(u, k - 1);
    }
    assert Clear(q, i + 1) && q[i + 1] == x;
  }

  lemma ServeWaits(q: seq<Key>, x: Key, keys: set<Key>)
    requires Unambiguous(keys) && Within(q, keys) && TwoSweeps(q) && x in q && q[0] != x
    ensures x in q[1..] && Wait(q[1..], x, keys) < Wait(q, x, keys)
  {
    var u := q[1..];
    var j :| 0 <= j < |q| && q[j] == x;
    assert u[j - 1] == x;
    if InSweep(q, x) {
      var i :| 0 <= i < |q| && q[i] == x && Clear(q, i);
      NextHead(q, x, keys, i);
    } else {
      assert q[0] in q && u[0] in q && q[0] in From(keys, q[0]);
      if Descent(q, 0) {
        forall k: nat
          ensures !Descent(u, k)
        {
          if Descent(u, k) {
            TailDescent(q, k);
          }
        }
        assert Clear(u, j - 1);
        Smaller(From(keys, u[0]) * UpTo(keys, x), UpTo(keys, x));
      } else {
        if InSweep(u, x) {
          BehindHead(q, x);
        }
        AscendsWithin(q, keys, 0, 1);
        Fewer(From(keys, u[0]), From(keys, q[0]), q[0]);
      }
    }
  }

  lemma {:induction false} ServedByThen(q: seq<Key>, ops: seq<Op>, x: Key, keys: set<Key>)
    requires Unambiguous(keys) && Among(q, ops, keys) && TwoSweeps(q) && Fresh(q, ops) && x in q
    requires Serves(ops) >= Wait(q, x, keys)
    ensures ServedIn(q, ops, x)
    decreases ops
  {
    WaitPositive(q, x, keys);
    var op, rest := ops[0], ops[1..];
    forall k | 0 <= k < |rest| && rest[k].Add?
      ensures rest[k].r in keys
    {
      assert rest[k] == ops[k + 1];
    }
    OpKeeps(q, op);
    match op
    case Add(r) =>
      AddWaits(q, r, x, keys);
      InsertKeeps(q, r);
      assert forall k | k in Insert(q, r) :: k in multiset(Insert(q, r));
      ServedByThen(Insert(q, r), rest, x, keys);
    case Serve =>
      if q[0] != x {
        ServeWaits(q, x, keys);
        ServedByThen(q[1..], rest, x, keys);
      }
  }

  lemma WaitPositive(q: seq<Key>, x: Key, keys: set<Key>)
    requires Unambiguous(keys) && Within(q, keys) && x in q
    ensures 0 < Wait(q, x, keys) <= 2 * |keys|
  {
    Smaller(From(keys, q[0]), keys);
    Smaller(UpTo(keys, x), keys);
    assert q[0] in q && q[0] in From(keys, q[0]) && x in UpTo(keys, x);
    if InSweep(q, x) {
      var i :| 0 <= i < |q| && q[i] == x && Clear(q, i);
      Smaller(From(keys, q[0]) * UpTo(keys, x), keys);
      if i > 0 {
        assert NoDescent(q, 0, i + 1);
        AscendsWithin(q, keys, 0, i);
      }
      assert x in From(keys, q[0]) * UpTo(keys, x);
    }
  }

  /** What the elevator is for: as long as the macro orders no pair of the keys in use both ways,
      a queued request is served in the current sweep or the next, hence within twice as many
      head removals as there are keys, whatever requests are added meanwhile. */
  lemma ServedInTwoSweeps(q: seq<Key>, ops: seq<Op>, x: Key, keys: set<Key>)
    requires Unambiguous(keys) && Among(q, ops, keys) && TwoSweeps(q) && Fresh(q, ops) && x in q
    requires Serves(ops) >= 2 * |keys|
    ensures ServedIn(q, ops, x)
  {
    WaitPositive(q, x, keys);
    ServedByThen(q, ops, x, keys);
  }

  /** k rounds of: b is queued, the head is served, a is queued, the head is served. */
  function Churn(a: Key, b: Key, k: nat): (r: seq<Op>)
    ensures |r| == 4 * k
  {
    if k == 0 then [] else [Add(b), Serve, Add(a), Serve] + Churn(a, b, k - 1)
  }

  lemma FourOps(q: seq<Key>, a: Key, b: Key, rest: seq<Op>)
    ensures var ops := [Add(b), Serve, Add(a), Serve] + rest;
            && ops[1..] == [Serve, Add(a), Serve] + rest && ops[1..][1..] == [Add(a), Serve] + rest
            && ops[1..][1..][1..] == [Serve] + rest && ops[1..][1..][1..][1..] == rest
  {
  }

  /** Without that condition there is no bound: two requests the macro orders both ways, queued in
      turn before z, hold z up for any number of head removals, though nothing queued is ever
      queued twice. */
  lemma {:induction false} MixedStarves(a: Key, b: Key, z: Key, k: nat)
    requires Both(a, b) && InOrder(a, z) && InOrder(b, z)
    ensures Fresh([a, z], Churn(a, b, k)) && Serves(Churn(a, b, k)) == 2 * k
    ensures !ServedIn([a, z], Churn(a, b, k), z)
  {
    if k > 0 {
      var rest := Churn(a, b, k - 1);
      MixedStarves(a, b, z, k - 1);
      FourOps([a, z], a, b, rest);
      assert Insert([a, z], b) == [a, b, z] && Insert([b, z], a) == [b, a, z];
      assert [a, b, z][1..] == [b, z] && [b, a, z][1..] == [a, z];
      StarvedRound(a, b, z, rest);
    }
  }

  lemma StarvedRound(a: Key, b: Key, z: Key, rest: seq<Op>)
    requires Both(a, b) && InOrder(a, z) && InOrder(b, z)
    requires Insert([a, z], b) == [a, b, z] && Insert([b, z], a) == [b, a, z]
    requires Fresh([a, z], rest) && !ServedIn([a, z], rest, z)
    ensures var ops := [Add(b), Serve, Add(a), Serve] + rest;
            Fresh([a, z], ops) && !ServedIn([a, z], ops, z) && Serves(ops) == 2 + Serves(rest)
  {
    FourOps([a, z], a, b, rest);
    assert [a, b, z][1..] == [b, z] && [b, a, z][1..] == [a, z];
    var o1, o2, o3 := [Serve] + rest, [Add(a), Serve] + rest, [Serve, Add(a), Serve] + rest;
    assert Fresh([b, a, z], o1) && !ServedIn([b, a, z], o1, z);
    assert Fresh([b, z], o2) && !ServedIn([b, z], o2, z);
    assert Fresh([a, b, z], o3) && !ServedIn([a, b, z], o3, z);
    assert Serves(o1) == 1 + Serves(rest) && Serves(o2) == Serves(o1) && Serves(o3) == 1 + Serves(o2);
  }
}
