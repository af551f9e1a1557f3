/** The terminal rings in place: tty_queue.c, and copy_to_buffer and tty_read of tty_io.c. */
module TtyDevice {
  import opened Tty

  class TtyQueue {
    const buf: array<int>
    var head: nat
    var tail: nat
    /** What the queue holds, oldest first. */
    ghost var chars: seq<int>

    constructor ()
      ensures Valid() && fresh(buf) && chars == []
    {
      buf := new int[SIZE](i => 0);
      head, tail, chars := 0, 0, [];
    }

    function View(): Ring
      reads this, buf
    {
      Ring(buf[..], head, tail)
    }

    ghost predicate Valid()
      reads this, buf
    {
      Good(View()) && chars == Contents(View()) && |chars| < SIZE
    }

    method IsEmpty() returns (b: bool)
      requires Valid()
      ensures b == (chars == [])
    {
      b := head == tail;
    }

    method IsFull() returns (b: bool)
      requires Valid()
      ensures b == Tty.IsFull(View())
    {
      b := Forth(tail) == head;
    }

    /** tty_push_q; false is the -1 of a full queue. */
    method Push(ch: int) returns (ok: bool)
      requires Valid()
      modifies this, buf
      ensures Valid() && (View(), ok) == Tty.Push(old(View()), ch)
      ensures ok == (|old(chars)| < SIZE - 1) && chars == if ok then old(chars) + [ch] else old(chars)
    {
      PushIs(View(), ch);
      var full := IsFull();
      if full {
        return false;
      }
      buf[tail] := ch;
      tail := Forth(tail);
      chars := chars + [ch];
      ok := true;
    }

    method PushFront(ch: int) returns (ok: bool)
      requires Valid()
      modifies this, buf
      ensures Valid() && (View(), ok) == Tty.PushFront(old(View()), ch)
      ensures ok == (|old(chars)| < SIZE - 1) && chars == if ok then [ch] + old(chars) else old(chars)
    {
      PushFrontIs(View(), ch);
      var full := IsFull();
      if full {
        return false;
      }
      head := Back(head);
      buf[head] := ch;
      chars := [ch] + chars;
      ok := true;
    }

    /** tty_pop_q once its sleep is over. */
    method Pop() returns (ch: int)
      requires Valid()
      modifies this`head, this`chars
      ensures Valid() && (View(), ch) == Tty.Pop(old(View()))
      ensures old(chars) != [] ==> ch == old(chars)[0] && chars == old(chars)[1..]
    {
      if chars != [] {
        PopIs(View());
      } else {
        PopEmptyIs(View());
      }
      ch := buf[head];
      head := Forth(head);
      chars := Contents(View());
    }

    /** One turn of the loop of copy_to_buffer, on the line buffer. */
    method EditWith(ch: int) returns (echo: bool)
      requires Valid()
      modifies this, buf
      ensures Valid() && (View(), echo) == Edit(old(View()), ch)
      ensures !echo <==> ch == BACKSPACE && (old(chars) == [] || old(buf[tail]) == NEWLINE)
    {
      EditIs(View(), ch);
      if ch == BACKSPACE {
        var empty := IsEmpty();
        if empty || buf[tail] == NEWLINE {
          return false;
        }
        tail := Back(tail);
        chars := Contents(View());
      } else if ch == END || ch == NEWLINE {
        var _ := Push(ch);
      } else {
        var full := IsFull();
        if !full {
          var _ := Push(ch);
        }
      }
      echo := true;
    }
  }

  /** The line buffer after a sequence of keystrokes. */
  function EditAll(r: Ring, s: seq<int>): Ring
    requires Good(r)
    decreases s
  {
    if s == [] then r else
      EditIs(r, s[0]);
      EditAll(Edit(r, s[0]).0, s[1..])
  }

  /** What is echoed meanwhile: everything but a refused backspace. */
  function Echoed(r: Ring, s: seq<int>): seq<int>
    requires Good(r)
    decreases s
  {
    if s == [] then [] else
      EditIs(r, s[0]);
      (if Edit(r, s[0]).1 then [s[0]] else []) + Echoed(Edit(r, s[0]).0, s[1..])
  }

  predicate NoBackspace(s: seq<int>) {
    forall i | 0 <= i < |s| :: s[i] != BACKSPACE
  }

  /** One more character, as far as there is room. */
  lemma JoinsOne(text: seq<int>, s: seq<int>, joined: seq<int>)
    requires s != [] && |text| <= SIZE - 1
    requires joined == if |text| < SIZE - 1 then text + [s[0]] else text
    ensures joined + s[1..][..Min(|s| - 1, SIZE - 1 - |joined|)] == text + s[..Min(|s|, SIZE - 1 - |text|)]
  {
    assert s == [s[0]] + s[1..];
    if |text| < SIZE - 1 {
      var k := Min(|s|, SIZE - 1 - |text|);
      assert s[..k] == [s[0]] + s[1..][..k - 1];
    }
  }

  lemma EchoesOne(r: Ring, s: seq<int>, u: Ring)
    requires Good(r) && Good(u) && s != [] && Edit(r, s[0]) == (u, true) && Echoed(u, s[1..]) == s[1..]
    ensures Echoed(r, s) == s && EditAll(r, s) == EditAll(u, s[1..])
  {
    assert [s[0]] + s[1..] == s;
  }

  /** Text without a backspace is echoed exactly, all of it and in order, and joins the buffer as
      far as there is room. */
  lemma {:induction false} PlainText(r: Ring, s: seq<int>)
    requires Good(r) && NoBackspace(s)
    ensures Echoed(r, s) == s
    ensures Good(EditAll(r, s))
    ensures Contents(EditAll(r, s)) == Contents(r) + s[..Min(|s|, SIZE - 1 - |Contents(r)|)]
    decreases s
  {
    if s == [] {
      assert Contents(r) + s[..0] == Contents(r);
    } else {
      var u := Edit(r, s[0]).0;
      EditIs(r, s[0]);
      PlainText(u, s[1..]);
      EchoesOne(r, s, u);
      JoinsOne(Contents(r), s, Contents(u));
    }
  }

  lemma OneKey(r: Ring, s: seq<int>, out: seq<int>)
    requires Good(r) && s != []
    ensures Good(Edit(r, s[0]).0) && EditAll(r, s) == EditAll(Edit(r, s[0]).0, s[1..])
    ensures out + Echoed(r, s) == (if Edit(r, s[0]).1 then out + [s[0]] else out) + Echoed(Edit(r, s[0]).0, s[1..])
  {
    EditIs(r, s[0]);
    assert [] + Echoed(Edit(r, s[0]).0, s[1..]) == Echoed(Edit(r, s[0]).0, s[1..]);
  }

  /** copy_to_buffer: every raw character is edited into the line buffer, in order. */
  method CopyToBuffer(raw: TtyQueue, line: TtyQueue) returns (echoed: seq<int>)
    requires raw.Valid() && line.Valid() && raw != line && raw.buf != line.buf
    modifies raw`head, raw`chars, line, line.buf
    ensures raw.Valid() && line.Valid() && raw.chars == []
    ensures line.View() == EditAll(old(line.View()), old(raw.chars))
    ensures echoed == Echoed(old(line.View()), old(raw.chars))
    ensures NoBackspace(old(raw.chars)) ==>
              && echoed == old(raw.chars)
              && line.chars == old(line.chars) + old(raw.chars)[..Min(|echoed|, SIZE - 1 - |old(line.chars)|)]
  {
    if NoBackspace(raw.chars) {
      PlainText(line.View(), raw.chars);
    }
    echoed := [];
    ghost var goal, echo := EditAll(line.View(), raw.chars), Echoed(line.View(), raw.chars);
    var empty := raw.IsEmpty();
    while !empty
      invariant raw.Valid() && line.Valid() && empty == (raw.chars == [])
      invariant EditAll(line.View(), raw.chars) == goal
      invariant echoed + Echoed(line.View(), raw.chars) == echo
      decreases |raw.chars|
    {
      ghost var r, s := line.View(), raw.chars;
      var ch := raw.Pop();
      var shown := line.EditWith(ch);
      OneKey(r, s, echoed);
      if shown {
        echoed := echoed + [ch];
      }
      empty := raw.IsEmpty();
    }
  }

  /** Where a reader of s stands: what it handed out, what it holds back and what is left. */
  ghost predicate Consumed(s: seq<int>, nr: int, user: seq<int>, held: seq<int>, left: seq<int>) {
    && s == user + held + left && |user| <= nr && (held != [] ==> |user| == nr)
    && forall i | 0 <= i < |user| + |held| && nr - 1 <= i :: !Ends(s[i])
  }

  /** The read is over. */
  ghost predicate Served(s: seq<int>, nr: int, user: seq<int>, left: seq<int>) {
    0 <= nr <= |s| && EndsFrom(s, nr - 1) && user == s[..nr] && left == s[nr..]
  }

  /** What tty_read owes its caller: `left` is the buffer afterwards. */
  ghost predicate Outcome(s: seq<int>, nr: int, ret: int, user: seq<int>, asleep: bool, left: seq<int>) {
    if nr < 0 then !asleep && ret == -1 && user == [] && left == s
    else if EndsFrom(s, nr - 1) then !asleep && ret == nr && Served(s, nr, user, left)
    else asleep && user == s[..Min(nr, |s|)] && left == []
  }

  lemma ServedOutcome(s: seq<int>, nr: int, user: seq<int>, left: seq<int>)
    requires Served(s, nr, user, left)
    ensures Outcome(s, nr, |user|, user, false, left)
  {
  }

  lemma TakeStep(s: seq<int>, nr: int, user: seq<int>, left: seq<int>)
    requires Consumed(s, nr, user, [], left) && left != [] && |user| < nr
    ensures var u, l := user + [left[0]], left[1..];
            if Ends(left[0]) && |u| == nr then Served(s, nr, u, l) else Consumed(s, nr, u, [], l)
  {
    var u, l := user + [left[0]], left[1..];
    assert left == [left[0]] + l;
    assert s == u + l == u + [] + l;
    assert s[|user|] == left[0];
  }

  lemma HoldStep(s: seq<int>, nr: int, user: seq<int>, held: seq<int>, left: seq<int>)
    requires Consumed(s, nr, user, held, left) && left != [] && |user| == nr
    ensures var h, l := held + [left[0]], left[1..];
            if Ends(left[0]) then Served(s, nr, user, h + l) else Consumed(s, nr, user, h, l)
  {
    var h, l := held + [left[0]], left[1..];
    assert left == [left[0]] + l;
    assert s == user + h + l == user + (h + l);
    assert s[|user| + |held|] == left[0];
  }

  lemma SleepStep(s: seq<int>, nr: int, user: seq<int>, held: seq<int>)
    requires Consumed(s, nr, user, held, []) && nr >= 0
    ensures Outcome(s, nr, -1, user, true, [])
  {
    assert s == user + held;
  }

  /** tty_read on a buffer nobody writes to meanwhile. It returns nr exactly when the buffer has
      a line end at or beyond the last character wanted; otherwise it is left `asleep` in
      tty_pop_q. tmpbuf never overflows and no push-back fails. */
  method TtyRead(q: TtyQueue, nr: int) returns (ret: int, user: seq<int>, asleep: bool)
    requires q.Valid()
    modifies q, q.buf
    ensures q.Valid()
    ensures Outcome(old(q.chars), nr, ret, user, asleep, q.chars)
  {
    user, asleep := [], false;
    if nr < 0 {
      return -1, [], false;
    }
    ghost var s := q.chars;
    var wanted, tmpbuf := nr, new int[SIZE];
    while true
      invariant q.Valid() && wanted == nr - |user| && Consumed(s, nr, user, [], q.chars)
      decreases |q.chars|
    {
      wanted, user, asleep := ReadOneLine(q, tmpbuf, s, nr, wanted, user);
      if asleep {
        return -1, user, true;
      }
      if wanted <= 0 {
        break;
      }
    }
    ServedOutcome(s, nr, user, q.chars);
    ret := |user|;
  }

  /** The inner loop of tty_read: up to the next line end. */
  method ReadOneLine(q: TtyQueue, tmpbuf: array<int>, ghost s: seq<int>, ghost nr: nat, wanted0: int, user0: seq<int>)
    returns (wanted: int, user: seq<int>, asleep: bool)
    requires q.Valid() && tmpbuf != q.buf && tmpbuf.Length == SIZE
    requires wanted0 == nr - |user0| && Consumed(s, nr, user0, [], q.chars)
    modifies q, q.buf, tmpbuf
    ensures q.Valid()
    ensures asleep ==> Outcome(s, nr, -1, user, true, q.chars)
    ensures !asleep && wanted <= 0 ==> Served(s, nr, user, q.chars)
    ensures !asleep && wanted > 0 ==> |q.chars| < |old(q.chars)| && wanted == nr - |user|
                                      && Consumed(s, nr, user, [], q.chars)
  {
    wanted, user, asleep := wanted0, user0, false;
    var n := 0;
    assert tmpbuf[..n] == [];
    while true
      invariant q.Valid() && 0 <= n && n + |q.chars| < SIZE && wanted == nr - |user| && (wanted > 0 ==> n == 0)
      invariant |q.chars| <= |old(q.chars)| && Consumed(s, nr, user, tmpbuf[..n], q.chars)
      decreases |q.chars|
    {
      ghost var held, left := tmpbuf[..n], q.chars;
      var empty := q.IsEmpty();
      if empty {
        SleepStep(s, nr, user, held);
        return wanted, user, true;
      }
      var ch := q.Pop();
      if wanted <= 0 {
        HoldStep(s, nr, user, held, left);
        tmpbuf[n] := ch;
        n := n + 1;
        assert tmpbuf[..n] == held + [ch];
        if ch == NEWLINE || ch == END {
          PutAllBack(q, tmpbuf, n);
          return;
        }
      } else {
        assert held == [];
        TakeStep(s, nr, user, left);
        user, wanted := user + [ch], wanted - 1;
        if ch == NEWLINE || ch == END {
          return;
        }
      }
    }
  }

  lemma Grows(held: seq<int>, i: nat, rest: seq<int>)
    requires i < |held|
    ensures [held[i]] + (held[i + 1..] + rest) == held[i..] + rest
  {
  }

  /** The push-back loop of tty_read. */
  method PutAllBack(q: TtyQueue, tmpbuf: array<int>, n: nat)
    requires q.Valid() && tmpbuf != q.buf && n <= tmpbuf.Length && n + |q.chars| <= SIZE - 1
    modifies q, q.buf
    ensures q.Valid() && q.chars == tmpbuf[..n] + old(q.chars)
  {
    ghost var held, rest := tmpbuf[..n], q.chars;
    for i := n downto 0
      invariant q.Valid() && tmpbuf[..n] == held
      invariant q.chars == held[i..] + rest
    {
      var ok := q.PushFront(tmpbuf[i]);
      assert ok;
      Grows(held, i, rest);
    }
    assert held[0..] == held;
  }
}
