/** The terminal's character rings (kernel/chr_drv/tty_queue.c), the line editor and the line
    reader (kernel/chr_drv/tty_io.c) on values. Characters are numbers; -1 marks end of file. */
module Tty {
  const SIZE := 1024
  const NEWLINE := 10
  const BACKSPACE := 8
  const END := -1

  /** `head` and `tail` are unsigned 32-bit counters. */
  datatype Ring = Ring(buf: seq<int>, head: nat, tail: nat)

  predicate Good(r: Ring) {
    |r.buf| == SIZE && r.head < SIZE && r.tail < SIZE
  }

  /** `(x - 1) % TTY_BUF_SIZE` on an unsigned long: 0 wraps to 4294967295 first. */
  function Back(x: nat): nat
    requires x < 0x1_0000_0000
  {
    (x + 0xFFFF_FFFF) % 0x1_0000_0000 % SIZE
  }

  function Forth(x: nat): nat {
    (x + 1) % SIZE
  }

  predicate IsEmpty(r: Ring) {
    r.head == r.tail
  }

  predicate IsFull(r: Ring) {
    Forth(r.tail) == r.head
  }

  function Push(r: Ring, ch: int): (Ring, bool)
    requires Good(r)
  {
    if IsFull(r) then (r, false) else (Ring(r.buf[r.tail := ch], r.head, Forth(r.tail)), true)
  }

  /** tty_pop_q past its sleep: it reads whatever the slot holds. */
  function Pop(r: Ring): (Ring, int)
    requires Good(r)
  {
    (r.(head := Forth(r.head)), r.buf[r.head])
  }

  function PushFront(r: Ring, ch: int): (Ring, bool)
    requires Good(r)
  {
    if IsFull(r) then (r, false) else (Ring(r.buf[Back(r.head) := ch], Back(r.head), r.tail), true)
  }

  // ---------- the ring is a deque of at most 1023 characters ----------

  function Count(r: Ring): nat
    requires Good(r)
  {
    if r.head <= r.tail then r.tail - r.head else r.tail + SIZE - r.head
  }

  /** What the ring holds, oldest first. */
  function Contents(r: Ring): (s: seq<int>)
    requires Good(r)
    ensures |s| == Count(r)
  {
    seq(Count(r), i requires 0 <= i < Count(r) => r.buf[Slot(r.head, i)])
  }

  function Slot(head: nat, i: nat): (k: nat)
    requires head < SIZE && i < SIZE
    ensures k < SIZE
  {
    if head + i < SIZE then head + i else head + i - SIZE
  }

  lemma Wraps(x: nat)
    requires x < SIZE
    ensures Back(x) == (if x == 0 then SIZE - 1 else x - 1) && Forth(x) == (if x == SIZE - 1 then 0 else x + 1)
  {
    if x > 0 {
      assert (x + 0xFFFF_FFFF) % 0x1_0000_0000 == x - 1;
    }
  }

  lemma PushIs(r: Ring, ch: int)
    requires Good(r)
    ensures var (u, ok) := Push(r, ch);
            && Good(u) && (ok <==> |Contents(r)| < SIZE - 1)
            && Contents(u) == if ok then Contents(r) + [ch] else Contents(r)
  {
    Wraps(r.tail);
  }

  lemma PushFrontIs(r: Ring, ch: int)
    requires Good(r)
    ensures var (u, ok) := PushFront(r, ch);
            && Good(u) && (ok <==> |Contents(r)| < SIZE - 1)
            && Contents(u) == if ok then [ch] + Contents(r) else Contents(r)
  {
    Wraps(r.tail);
    Wraps(r.head);
  }

  lemma PopIs(r: Ring)
    requires Good(r) && Contents(r) != []
    ensures var (u, ch) := Pop(r); Good(u) && ch == Contents(r)[0] && Contents(u) == Contents(r)[1..]
  {
    Wraps(r.head);
  }

  /** A pop of an empty ring, which a pending signal lets through, invents 1023 characters. */
  lemma PopEmptyIs(r: Ring)
    requires Good(r) && Contents(r) == []
    ensures Good(Pop(r).0) && |Contents(Pop(r).0)| == SIZE - 1
  {
    Wraps(r.head);
  }

  datatype Op = PushOp(ch: int) | FrontOp(ch: int) | PopOp

  /** The bounded deque: what comes back is the character popped, or whether a push worked. */
  datatype Reply = Char(ch: int) | Accepted(ok: bool)

  function OnDeque(s: seq<int>, op: Op): (seq<int>, Reply)
    requires op.PopOp? ==> s != []
  {
    match op
    case PushOp(ch) => if |s| < SIZE - 1 then (s + [ch], Accepted(true)) else (s, Accepted(false))
    case FrontOp(ch) => if |s| < SIZE - 1 then ([ch] + s, Accepted(true)) else (s, Accepted(false))
    case PopOp => (s[1..], Char(s[0]))
  }

  function OnRing(r: Ring, op: Op): (Ring, Reply)
    requires Good(r)
  {
    match op
    case PushOp(ch) => var (u, ok) := Push(r, ch); (u, Accepted(ok))
    case FrontOp(ch) => var (u, ok) := PushFront(r, ch); (u, Accepted(ok))
    case PopOp => var (u, ch) := Pop(r); (u, Char(ch))
  }

  predicate Popped(s: seq<int>, ops: seq<Op>)
    decreases ops
  {
    ops == [] || ((ops[0].PopOp? ==> s != []) && Popped(OnDeque(s, ops[0]).0, ops[1..]))
  }

  function Replies(s: seq<int>, ops: seq<Op>): (seq<int>, seq<Reply>)
    requires Popped(s, ops)
    decreases ops
  {
    if ops == [] then (s, [])
    else
      var (t, reply) := OnDeque(s, ops[0]);
      var (u, replies) := Replies(t, ops[1..]);
      (u, [reply] + replies)
  }

  function RingReplies(r: Ring, ops: seq<Op>): seq<Reply>
    requires Good(r)
    decreases ops
  {
    if ops == [] then []
    else
      StaysGood(r, ops[0]);
      var (t, reply) := OnRing(r, ops[0]);
      [reply] + RingReplies(t, ops[1..])
  }

  lemma StaysGood(r: Ring, op: Op)
    requires Good(r)
    ensures Good(OnRing(r, op).0)
  {
    Wraps(r.head);
    Wraps(r.tail);
  }

  /** Any sequence of operations that never pops an empty queue gets the same replies from the
      ring as from the deque. */
  lemma {:induction false} RingIsDeque(r: Ring, ops: seq<Op>)
    requires Good(r) && Popped(Contents(r), ops)
    ensures RingReplies(r, ops) == Replies(Contents(r), ops).1
    decreases ops
  {
    if ops != [] {
      var op := ops[0];
      StaysGood(r, op);
      match op {
        case PushOp(ch) => PushIs(r, ch);
        case FrontOp(ch) => PushFrontIs(r, ch);
        case PopOp => PopIs(r);
      }
      RingIsDeque(OnRing(r, op).0, ops[1..]);
    }
  }

  // ---------- tty_read ----------

  predicate Ends(ch: int) {
    ch == NEWLINE || ch == END
  }

  /** `Sleeps` is a reader that found the buffer empty; it has handed `out` to its caller and
      holds `held`. */
  datatype Read = Returns(out: seq<int>, left: seq<int>) | Sleeps(out: seq<int>, held: seq<int>) | Refused

  /** The two loops of tty_read: `nr` characters are still wanted; beyond them the rest of the
      line is read into tmpbuf and put back. */
  function Reading(s: seq<int>, nr: int, out: seq<int>, held: seq<int>): Read {
    if s == [] then Sleeps(out, held)
    else if nr <= 0 then
      if Ends(s[0]) then Returns(out, held + [s[0]] + s[1..]) else Reading(s[1..], nr, out, held + [s[0]])
    else if Ends(s[0]) && nr == 1 then Returns(out + [s[0]], s[1..])
    else Reading(s[1..], nr - 1, out + [s[0]], held)
  }

  function TtyRead(s: seq<int>, nr: int): Read {
    if nr < 0 then Refused else Reading(s, nr, [], [])
  }

  /** A line end from index k on. */
  ghost predicate EndsFrom(s: seq<int>, k: int) {
    exists i :: 0 <= i < |s| && k <= i && Ends(s[i])
  }

  lemma EndsTail(s: seq<int>, k: int)
    requires s != [] && !(k <= 0 && Ends(s[0]))
    ensures EndsFrom(s, k) <==> EndsFrom(s[1..], k - 1)
  {
    if i :| 0 <= i < |s| && k <= i && Ends(s[i]) {
      assert Ends(s[1..][i - 1]);
    }
    if i :| 0 <= i < |s[1..]| && k - 1 <= i && Ends(s[1..][i]) {
      assert Ends(s[i + 1]);
    }
  }

  lemma EndsLow(s: seq<int>, k: int, j: int)
    requires k <= 0 && j <= 0
    ensures EndsFrom(s, k) <==> EndsFrom(s, j)
  {
  }

  lemma {:induction false} OverReads(s: seq<int>, nr: int, out: seq<int>, held: seq<int>)
    requires nr <= 0
    ensures Reading(s, nr, out, held) == if EndsFrom(s, 0) then Returns(out, held + s) else Sleeps(out, held + s)
    decreases s
  {
    if s == [] {
      assert held + s == held;
    } else if Ends(s[0]) {
      assert held + [s[0]] + s[1..] == held + s;
    } else {
      OverReads(s[1..], nr, out, held + [s[0]]);
      EndsTail(s, 0);
      EndsLow(s[1..], -1, 0);
      assert held + [s[0]] + s[1..] == held + s;
    }
  }

  function Min(a: int, b: int): int {
    if a < b then a else b
  }

  /** A reader that is not interrupted returns exactly when the buffer has a line end at or
      beyond the last character it wants; it then hands out the first nr characters and leaves
      the rest of the buffer as it was. */
  lemma {:induction false} Reads(s: seq<int>, nr: nat, out: seq<int>)
    ensures Reading(s, nr, out, []) ==
              if EndsFrom(s, nr - 1) then Returns(out + s[..Min(nr, |s|)], s[Min(nr, |s|)..])
              else Sleeps(out + s[..Min(nr, |s|)], s[Min(nr, |s|)..])
    ensures EndsFrom(s, nr - 1) ==> nr <= |s|
    decreases s
  {
    if nr == 0 {
      OverReads(s, nr, out, []);
      EndsLow(s, -1, 0);
      assert [] + s == s == s[0..] && out + s[..0] == out;
    } else if s == [] {
      assert out + s[..0] == out;
    } else if Ends(s[0]) && nr == 1 {
      assert EndsFrom(s, 0);
    } else {
      Reads(s[1..], nr - 1, out + [s[0]]);
      EndsTail(s, nr - 1);
      var k := Min(nr, |s|);
      assert out + [s[0]] + s[1..][..k - 1] == out + s[..k];
      assert s[1..][k - 1..] == s[k..];
    }
  }

  lemma ReadLine(s: seq<int>, nr: int)
    ensures nr < 0 ==> TtyRead(s, nr) == Refused
    ensures nr >= 0 ==> (TtyRead(s, nr).Returns? <==> EndsFrom(s, nr - 1))
    ensures nr >= 0 && EndsFrom(s, nr - 1) ==> nr <= |s| && TtyRead(s, nr) == Returns(s[..nr], s[nr..])
    ensures nr >= 0 && !EndsFrom(s, nr - 1) ==> TtyRead(s, nr) == Sleeps(s[..Min(nr, |s|)], s[Min(nr, |s|)..])
  {
    if nr >= 0 {
      Reads(s, nr, []);
      assert [] + s[..Min(nr, |s|)] == s[..Min(nr, |s|)];
    }
  }

  // ---------- a reader that is fed while it reads ----------

  /** The ring, what is still wanted, and what has been handed out and held back. */
  datatype Reader = Reader(ring: seq<int>, nr: int, out: seq<int>, held: seq<int>, done: bool)

  /** The push-back loop: from the last held character to the first, while there is room. */
  function PutBack(ring: seq<int>, held: seq<int>): seq<int>
    decreases |held|
  {
    if held == [] then ring
    else
      var last := held[|held| - 1];
      PutBack(if |ring| < SIZE - 1 then [last] + ring else ring, held[..|held| - 1])
  }

  /** A keystroke is added to the line buffer, a backspace takes the last character out of it,
      and the reader takes the first. */
  datatype Event = Arrives(ch: int) | Erases | Takes

  predicate Possible(t: Reader, e: Event) {
    match e
    case Arrives(_) => true
    case Erases => t.ring != []
    case Takes => !t.done && t.ring != []
  }

  function Happens(t: Reader, e: Event): Reader
    requires Possible(t, e)
  {
    match e
    case Arrives(ch) => if |t.ring| < SIZE - 1 then t.(ring := t.ring + [ch]) else t
    case Erases => t.(ring := t.ring[..|t.ring| - 1])
    case Takes =>
      var ch, rest := t.ring[0], t.ring[1..];
      if t.nr <= 0 then
        if Ends(ch) then Reader(PutBack(rest, t.held + [ch]), t.nr, t.out, t.held + [ch], true)
        else Reader(rest, t.nr, t.out, t.held + [ch], false)
      else Reader(rest, t.nr - 1, t.out + [ch], t.held, Ends(ch) && t.nr == 1)
  }

  predicate AllPossible(t: Reader, events: seq<Event>)
    decreases events
  {
    events == [] || (Possible(t, events[0]) && AllPossible(Happens(t, events[0]), events[1..]))
  }

  function AfterAll(t: Reader, events: seq<Event>): Reader
    requires AllPossible(t, events)
    decreases events
  {
    if events == [] then t else AfterAll(Happens(t, events[0]), events[1..])
  }

  /** What the keyboard makes of a text, given whether the ring has room. */
  function Typed(t: Reader, text: seq<int>, e: Event): seq<int> {
    match e
    case Arrives(ch) => if |t.ring| < SIZE - 1 then text + [ch] else text
    case Erases => if text == [] then [] else text[..|text| - 1]
    case Takes => text
  }

  function TypedAll(t: Reader, text: seq<int>, events: seq<Event>): seq<int>
    requires AllPossible(t, events)
    decreases events
  {
    if events == [] then text else TypedAll(Happens(t, events[0]), Typed(t, text, events[0]), events[1..])
  }

  /** Everything that was typed and not erased, in order. */
  function All(t: Reader): seq<int> {
    t.out + t.held + t.ring
  }

  /** The reader holds characters back only once it has all it wants, and the ring keeps to its
      capacity. */
  predicate Sound(t: Reader) {
    (t.nr > 0 ==> t.held == []) && |t.ring| <= SIZE - 1
  }

  lemma OneStep(t: Reader, e: Event)
    requires Possible(t, e) && Sound(t) && !Happens(t, e).done
    ensures Sound(Happens(t, e)) && All(Happens(t, e)) == Typed(t, All(t), e)
  {
    match e
    case Arrives(ch) => Grown(t.out + t.held, t.ring, ch);
    case Erases => Shrunk(t.out + t.held, t.ring);
    case Takes => Shifted(t.out, t.held, t.ring);
  }

  lemma Grown(a: seq<int>, b: seq<int>, ch: int)
    ensures a + (b + [ch]) == a + b + [ch]
  {
  }

  lemma Shrunk(a: seq<int>, b: seq<int>)
    requires b != []
    ensures a + b[..|b| - 1] == (a + b)[..|a + b| - 1]
  {
  }

  lemma Shifted(out: seq<int>, held: seq<int>, ring: seq<int>)
    requires ring != []
    ensures out + (held + [ring[0]]) + ring[1..] == out + held + ring
    ensures held == [] ==> (out + [ring[0]]) + held + ring[1..] == out + held + ring
  {
    assert ring == [ring[0]] + ring[1..];
  }

  lemma {:induction false} StaysDone(t: Reader, events: seq<Event>)
    requires AllPossible(t, events) && t.done
    ensures AfterAll(t, events).done
    decreases events
  {
    if events != [] {
      StaysDone(Happens(t, events[0]), events[1..]);
    }
  }

  /** Until the read is over, nothing is lost or reordered, however keystrokes, backspaces and
      reads interleave: what has been handed out, what is held back and the ring together are
      the text typed so far. */
  lemma {:induction false} NothingLost(t: Reader, events: seq<Event>)
    requires AllPossible(t, events) && Sound(t) && !AfterAll(t, events).done
    ensures Sound(AfterAll(t, events)) && All(AfterAll(t, events)) == TypedAll(t, All(t), events)
    decreases events
  {
    if events != [] {
      var u := Happens(t, events[0]);
      if u.done {
        StaysDone(u, events[1..]);
      } else {
        OneStep(t, events[0]);
        NothingLost(u, events[1..]);
      }
    }
  }

  lemma LastOver(held: seq<int>, ring: seq<int>, k: nat)
    requires 0 < k <= |held|
    ensures var last, first := held[|held| - 1], held[..|held| - 1];
            first[|held| - k..] + ([last] + ring) == held[|held| - k..] + ring
  {
  }

  /** The push-back keeps every character exactly when they all fit; what does not fit is
      lost from the front of the line. */
  lemma {:induction false} PutBackIs(ring: seq<int>, held: seq<int>)
    requires |ring| <= SIZE - 1
    ensures var room := SIZE - 1 - |ring|;
            PutBack(ring, held) == (if |held| <= room then held else held[|held| - room..]) + ring
    decreases |held|
  {
    if held != [] {
      var last, first := held[|held| - 1], held[..|held| - 1];
      if |ring| < SIZE - 1 {
        PutBackIs([last] + ring, first);
        var room := SIZE - 1 - |ring|;
        LastOver(held, ring, if |held| <= room then |held| else room);
      } else {
        PutBackIs(ring, first);
        assert held[|held|..] + ring == ring;
      }
    } else {
      assert held + ring == ring;
    }
  }

  lemma PutBackFits(ring: seq<int>, held: seq<int>)
    requires |ring| <= SIZE - 1
    ensures PutBack(ring, held) == held + ring <==> |held| + |ring| <= SIZE - 1
  {
    PutBackIs(ring, held);
  }

  /** The end of the read: the characters handed out and the ring are again everything typed if
      and only if what was held back and what is in the ring fit together. */
  lemma FinishedRead(t: Reader)
    requires Possible(t, Takes) && Sound(t) && Happens(t, Takes).done
    ensures var u := Happens(t, Takes); u.out + u.ring == All(t) <==> |t.held| + |t.ring| <= SIZE - 1
  {
    var ch, rest := t.ring[0], t.ring[1..];
    Shifted(t.out, t.held, t.ring);
    if t.nr <= 0 {
      var held := t.held + [ch];
      PutBackFits(rest, held);
      Regroup(t.out, held, rest);
      SameTail(t.out, PutBack(rest, held), held + rest);
    } else {
      Regroup(t.out + [ch], [], rest);
    }
  }

  lemma Regroup(a: seq<int>, b: seq<int>, c: seq<int>)
    ensures a + b + c == a + (b + c)
    ensures b == [] ==> a + b + c == a + c
  {
  }

  lemma SameTail(a: seq<int>, b: seq<int>, c: seq<int>)
    ensures a + b == a + c <==> b == c
  {
    assert (a + b)[|a|..] == b && (a + c)[|a|..] == c;
  }

  function TakenBy(events: seq<Event>): nat {
    if events == [] then 0 else (if events[0].Takes? then 1 else 0) + TakenBy(events[1..])
  }

  /** How much tmpbuf holds: every character taken beyond the nr wanted. Its 1024 places are
      enough exactly as long as at most 1024 characters beyond nr have been taken. */
  lemma {:induction false} HeldBack(t: Reader, events: seq<Event>)
    requires AllPossible(t, events) && !AfterAll(t, events).done && t.nr >= 0 && (t.nr > 0 ==> t.held == [])
    ensures |AfterAll(t, events).held| == |t.held| + if TakenBy(events) > t.nr then TakenBy(events) - t.nr else 0
    decreases events
  {
    if events != [] {
      var u := Happens(t, events[0]);
      if u.done {
        StaysDone(u, events[1..]);
      } else {
        HeldBack(u, events[1..]);
      }
    }
  }

  /** k keystrokes of a line that does not end, each read at once. */
  function LongLine(k: nat): seq<Event> {
    if k == 0 then [] else [Arrives(97), Takes] + LongLine(k - 1)
  }

  /** Such a run exists for every k, so a reader fed while it reads takes its 1025th character
      beyond nr, one more than tmpbuf has places for, from a line that long. */
  lemma {:induction false} LongLineRuns(t: Reader, k: nat)
    requires t.ring == [] && !t.done
    ensures AllPossible(t, LongLine(k)) && !AfterAll(t, LongLine(k)).done && TakenBy(LongLine(k)) == k
    decreases k
  {
    if k > 0 {
      var events, rest := LongLine(k), LongLine(k - 1);
      var u := Happens(t, Arrives(97));
      var v := Happens(u, Takes);
      LongLineRuns(v, k - 1);
      assert events[1..] == [Takes] + rest;
      assert events[1..][1..] == rest;
      assert AllPossible(u, events[1..]) && AfterAll(u, events[1..]) == AfterAll(v, rest);
      assert TakenBy(events[1..]) == 1 + TakenBy(rest);
    }
  }

  function OnlyTakes(k: nat): seq<Event> {
    if k == 0 then [] else [Takes] + OnlyTakes(k - 1)
  }

  /** A reader that nobody feeds ends where tty_read ends: it takes characters until it is done or
      the buffer is empty, and has then handed out, held back and left over the same. */
  lemma {:induction false} UnfedFrom(t: Reader) returns (k: nat)
    requires !t.done && |t.held| + |t.ring| <= SIZE - 1
    ensures AllPossible(t, OnlyTakes(k)) && !Possible(AfterAll(t, OnlyTakes(k)), Takes)
    ensures var u := AfterAll(t, OnlyTakes(k));
            match Reading(t.ring, t.nr, t.out, t.held)
            case Returns(out, left) => u.done && u.out == out && u.ring == left
            case Sleeps(out, held) => !u.done && u.out == out && u.held == held && u.ring == []
            case Refused => false
    decreases |t.ring|
  {
    if t.ring == [] {
      k := 0;
    } else {
      var u := Happens(t, Takes);
      if u.done {
        assert OnlyTakes(1) == [Takes] && [Takes][1..] == [];
        k := 1;
        if t.nr <= 0 {
          PutBackFits(t.ring[1..], t.held + [t.ring[0]]);
          assert AllPossible(u, []) && AfterAll(u, []) == u;
        }
      } else {
        var j := UnfedFrom(u);
        k := j + 1;
        assert OnlyTakes(k)[1..] == OnlyTakes(j);
      }
    }
  }

  /** So a run of `Takes` alone is a read of tty_read, and `Reader` reads as the C code does. */
  lemma UnfedReads(s: seq<int>, nr: nat) returns (k: nat)
    requires |s| <= SIZE - 1
    ensures var t := Reader(s, nr, [], [], false);
            && AllPossible(t, OnlyTakes(k)) && !Possible(AfterAll(t, OnlyTakes(k)), Takes)
            && var u := AfterAll(t, OnlyTakes(k));
               if u.done then TtyRead(s, nr) == Returns(u.out, u.ring)
               else TtyRead(s, nr) == Sleeps(u.out, u.held) && u.ring == []
    ensures AfterAll(Reader(s, nr, [], [], false), OnlyTakes(k)).done <==> EndsFrom(s, nr - 1)
  {
    k := UnfedFrom(Reader(s, nr, [], [], false));
    ReadLine(s, nr);
  }

  function Burst(k: nat): seq<Event> {
    if k == 0 then [] else [Arrives(97)] + Burst(k - 1)
  }

  lemma {:induction false} BurstFills(t: Reader, k: nat)
    requires !t.done && t.ring != [] && |t.ring| + k <= SIZE - 1
    ensures AllPossible(t, Burst(k))
    ensures var u := AfterAll(t, Burst(k));
            u == t.(ring := u.ring) && |u.ring| == |t.ring| + k && u.ring[0] == t.ring[0]
    decreases k
  {
    if k > 0 {
      assert Burst(k)[1..] == Burst(k - 1);
      BurstFills(Happens(t, Arrives(97)), k - 1);
    }
  }

  lemma {:induction false} InTurn(t: Reader, first: seq<Event>, rest: seq<Event>)
    requires AllPossible(t, first) && AllPossible(AfterAll(t, first), rest)
    ensures AllPossible(t, first + rest) && AfterAll(t, first + rest) == AfterAll(AfterAll(t, first), rest)
    decreases first
  {
    if first == [] {
      assert first + rest == rest;
    } else {
      assert (first + rest)[1..] == first[1..] + rest;
      InTurn(Happens(t, first[0]), first[1..], rest);
    }
  }

  /** A reader takes one character beyond nr, then a newline and k more characters arrive. */
  function LongRun(k: nat): seq<Event> {
    [Arrives(97), Takes, Arrives(NEWLINE)] + Burst(k)
  }

  /** The losing case arises: when the newline and what follows fill the ring and the reader comes
      to that newline, it has one character too many to put back, and the line loses its first. */
  lemma LossArises(t: Reader, k: nat)
    requires t.ring == [] && t.held == [] && t.nr <= 0 && !t.done && k + 2 <= SIZE
    ensures AllPossible(t, LongRun(k))
    ensures var u := AfterAll(t, LongRun(k));
            && Possible(u, Takes) && Sound(u) && All(u) == TypedAll(t, t.out, LongRun(k)) && Happens(u, Takes).done
            && (Happens(u, Takes).out + Happens(u, Takes).ring != All(u) <==> k + 2 == SIZE)
  {
    var first := [Arrives(97), Takes, Arrives(NEWLINE)];
    var v := Reader([NEWLINE], t.nr, t.out, [97], false);
    var u := Happens(Happens(t, Arrives(97)), Takes);
    assert first[1..] == [Takes, Arrives(NEWLINE)] && first[1..][1..] == [Arrives(NEWLINE)];
    assert [Arrives(NEWLINE)][1..] == [];
    assert AllPossible(u, [Arrives(NEWLINE)]) && AfterAll(u, [Arrives(NEWLINE)]) == v;
    assert AllPossible(Happens(t, Arrives(97)), first[1..]) && AfterAll(Happens(t, Arrives(97)), first[1..]) == v;
    assert AllPossible(t, first) && AfterAll(t, first) == v;
    BurstFills(v, k);
    InTurn(t, first, Burst(k));
    assert All(t) == t.out;
    NothingLost(t, LongRun(k));
    FinishedRead(AfterAll(t, LongRun(k)));
  }

  // ---------- copy_to_buffer ----------

  /** One character of copy_to_buffer: the buffer after it and whether it is echoed. The guard
      against erasing a newline looks at the slot behind the last character. */
  function Edit(r: Ring, ch: int): (Ring, bool)
    requires Good(r)
  {
    if ch == BACKSPACE then
      if IsEmpty(r) || r.buf[r.tail] == NEWLINE then (r, false) else (r.(tail := Back(r.tail)), true)
    else if Ends(ch) || !IsFull(r) then (Push(r, ch).0, true)
    else (r, true)
  }

  /** What a keystroke does to the buffer, and that everything is echoed, characters for which there
      is no room included, except a backspace that finds nothing to erase or a newline behind the
      last character. */
  lemma EditIs(r: Ring, ch: int)
    requires Good(r)
    ensures !Edit(r, ch).1 <==> ch == BACKSPACE && (Contents(r) == [] || r.buf[r.tail] == NEWLINE)
    ensures var u, s := Edit(r, ch).0, Contents(r);
            && Good(u)
            && (ch != BACKSPACE ==> Contents(u) == if |s| < SIZE - 1 then s + [ch] else s)
            && (ch == BACKSPACE ==> Contents(u) == if s != [] && r.buf[r.tail] != NEWLINE then s[..|s| - 1] else s)
  {
    Wraps(r.tail);
    PushIs(r, ch);
  }

  /** A character typed and erased at once leaves the text as it was. */
  lemma TypedErased(r: Ring, ch: int)
    requires Good(r) && ch != BACKSPACE && |Contents(r)| < SIZE - 1 && r.buf[Forth(r.tail)] != NEWLINE
    ensures Good(Edit(r, ch).0) && Contents(Edit(Edit(r, ch).0, BACKSPACE).0) == Contents(r)
    ensures Edit(r, ch).1 && Edit(Edit(r, ch).0, BACKSPACE).1
  {
    var a := Edit(r, ch).0;
    EditIs(r, ch);
    EditIs(a, BACKSPACE);
    Wraps(r.tail);
  }

  /** The comment says a newline cannot be erased; the code erases it, and then refuses to
      erase the character before it. */
  lemma NewlineErased(r: Ring)
    requires Good(r) && |Contents(r)| < SIZE - 1 && r.buf[Forth(r.tail)] != NEWLINE
    ensures Good(Edit(r, NEWLINE).0) && Good(Edit(Edit(r, NEWLINE).0, BACKSPACE).0)
    ensures Contents(Edit(Edit(r, NEWLINE).0, BACKSPACE).0) == Contents(r)
    ensures Edit(Edit(Edit(r, NEWLINE).0, BACKSPACE).0, BACKSPACE) == (Edit(Edit(r, NEWLINE).0, BACKSPACE).0, false)
  {
    var a := Edit(r, NEWLINE).0;
    EditIs(r, NEWLINE);
    EditIs(a, BACKSPACE);
    Wraps(r.tail);
    Wraps(a.tail);
  }
}
