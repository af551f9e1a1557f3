/** find_empty_process (kernel/fork.c): the search for an unused process number. */
module Pids {
  import opened Counting

  const MAX_PID: nat := 0x7fff_ffff

  /** `++last_pid` on a 32-bit long: past the largest value it goes negative and is reset to 1. */
  function Next(pid: nat): nat {
    if pid >= MAX_PID then 1 else pid + 1
  }

  /** The pid tried after k failures, starting from `start`. */
  function Probe(start: nat, k: nat): nat {
    if start + k <= MAX_PID then start + k else start + k - MAX_PID
  }

  /** `pids[i]` is the pid in slot i, or -1 for an empty slot. */
  predicate Held(pids: seq<int>, pid: nat) {
    exists i | 0 <= i < |pids| :: pids[i] == pid
  }

  /** The number of failed probes before the search stops. */
  function Failures(pids: seq<int>, start: nat, k: nat): (r: nat)
    requires k <= 64
    ensures k <= r <= 64
    ensures r < 64 ==> !Held(pids, Probe(start, r))
    ensures forall j | k <= j < r :: Held(pids, Probe(start, j))
    decreases 64 - k
  {
    if k == 64 || !Held(pids, Probe(start, k)) then k else Failures(pids, start, k + 1)
  }

  function FindPid(pids: seq<int>, start: nat): nat {
    Probe(start, Failures(pids, start, 0))
  }

  lemma ProbesDiffer(start: nat, j: nat, k: nat)
    requires start <= MAX_PID && j < k <= 64
    ensures Probe(start, j) != Probe(start, k)
  {
  }

  lemma ProbeNext(start: nat, k: nat)
    requires start <= MAX_PID && k < 64
    ensures Probe(start, k + 1) == Next(Probe(start, k))
    ensures Probe(start, k) <= MAX_PID
  {
  }

  function SlotOf(pids: seq<int>, pid: nat): (i: nat)
    requires Held(pids, pid)
    ensures i < |pids| && pids[i] == pid
  {
    FirstSlot(pids, pid, 0)
  }

  function FirstSlot(pids: seq<int>, pid: nat, k: nat): (i: nat)
    requires k <= |pids| && exists i | k <= i < |pids| :: pids[i] == pid
    ensures k <= i < |pids| && pids[i] == pid
    decreases |pids| - k
  {
    if pids[k] == pid then k else FirstSlot(pids, pid, k + 1)
  }

  /** Distinct held pids sit in distinct slots, so they are at most as many as the slots. */
  lemma {:induction false} Slots(pids: seq<int>, start: nat, k: nat)
    requires start <= MAX_PID && k <= 65
    requires forall j | 0 <= j < k :: Held(pids, Probe(start, j))
    ensures k <= |pids|
  {
    var used := set j | 0 <= j < k :: SlotOf(pids, Probe(start, j));
    SlotsUsed(pids, start, k);
    var hole: nat -> int := i => i + 1;
    Pigeonhole(used, hole, |pids|);
  }

  lemma {:induction false} SlotsUsed(pids: seq<int>, start: nat, k: nat)
    requires start <= MAX_PID && k <= 65
    requires forall j | 0 <= j < k :: Held(pids, Probe(start, j))
    ensures |set j | 0 <= j < k :: SlotOf(pids, Probe(start, j))| == k
  {
    if k > 0 {
      SlotsUsed(pids, start, k - 1);
      var less := set j | 0 <= j < k - 1 :: SlotOf(pids, Probe(start, j));
      var last := SlotOf(pids, Probe(start, k - 1));
      forall j | 0 <= j < k - 1
        ensures SlotOf(pids, Probe(start, j)) != last
      {
        ProbesDiffer(start, j, k - 1);
      }
      assert (set j | 0 <= j < k :: SlotOf(pids, Probe(start, j))) == less + {last};
    }
  }

  /** p is the first pid nobody holds when one counts up from `start` and goes on with 1 after the
      largest. */
  ghost predicate NextFree(pids: seq<int>, start: nat, p: nat) {
    && p <= MAX_PID && !Held(pids, p)
    && if start <= p then forall q | start <= q < p :: Held(pids, q)
       else 1 <= p && (forall q | start <= q <= MAX_PID :: Held(pids, q)) && (forall q | 1 <= q < p :: Held(pids, q))
  }

  lemma FirstFree(pids: seq<int>, start: nat, r: nat)
    requires start <= MAX_PID && r <= 64 && !Held(pids, Probe(start, r)) && Probe(start, r) <= MAX_PID
    requires forall j | 0 <= j < r :: Held(pids, Probe(start, j))
    ensures NextFree(pids, start, Probe(start, r))
  {
    var p := Probe(start, r);
    forall q: nat | (start <= q < p) || (p < start && (start <= q <= MAX_PID || 1 <= q < p))
      ensures Held(pids, q)
    {
      var j := if start <= q then q - start else q + MAX_PID - start;
      assert j < r && Probe(start, j) == q;
    }
  }

  /** With 64 slots, one of the first 65 probes succeeds from any starting value, and the pid
      found is the first from there on that no slot holds. */
  lemma FindPidFresh(pids: seq<int>, start: nat)
    requires start <= MAX_PID && |pids| == 64
    ensures !Held(pids, FindPid(pids, start)) && FindPid(pids, start) <= MAX_PID
    ensures NextFree(pids, start, FindPid(pids, start))
  {
    var r := Failures(pids, start, 0);
    if r == 64 && Held(pids, Probe(start, 64)) {
      Slots(pids, start, 65);
    }
    if r > 0 {
      ProbeNext(start, r - 1);
    }
    FirstFree(pids, start, r);
  }

  lemma FailuresIs(pids: seq<int>, start: nat, j: nat, k: nat)
    requires j <= k <= 64 && !Held(pids, Probe(start, k))
    requires forall i | j <= i < k :: Held(pids, Probe(start, i))
    ensures Failures(pids, start, j) == k
    decreases k - j
  {
    if j < k {
      FailuresIs(pids, start, j + 1, k);
    }
  }
}
