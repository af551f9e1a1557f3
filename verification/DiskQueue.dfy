/** add_request (kernel/blk_drv/request_scan_algo.c) on the linked list itself. */
module DiskQueue {
  import opened Elevator

  class BufferHead {
    var dirt: bool
  }

  /** What is asked of the disk does not change while the request is queued. */
  class Request {
    const dev: int
    const cmd: int
    const sector: nat
    var bh: BufferHead?
    var next: Request?

    constructor (dev: int, cmd: int, sector: nat, bh: BufferHead?)
      ensures Key() == Elevator.Key.Key(cmd, dev, sector) && this.bh == bh
    {
      this.dev, this.cmd, this.sector, this.bh, next := dev, cmd, sector, bh, null;
    }

    function Key(): Key
    {
      Elevator.Key.Key(cmd, dev, sector)
    }
  }

  /** The order keys of a list of requests. */
  ghost function KeysOf(rs: seq<Request>): (r: seq<Key>)
    ensures |r| == |rs| && forall i | 0 <= i < |rs| :: r[i] == rs[i].Key()
  {
    seq(|rs|, i requires 0 <= i < |rs| => rs[i].Key())
  }

  lemma KeysInserted(rs: seq<Request>, req: Request, k: nat)
    requires k < |rs|
    ensures KeysOf(Inserted(rs, req, k)) == Inserted(KeysOf(rs), req.Key(), k)
  {
  }

  /** The list with `req` where add_request puts it. */
  ghost function Placed(rs: seq<Request>, req: Request): seq<Request>
  {
    if rs == [] then [req] else Inserted(rs, req, Position(KeysOf(rs), req.Key(), 0))
  }

  lemma KeysPlaced(rs: seq<Request>, req: Request)
    ensures KeysOf(Placed(rs, req)) == Insert(KeysOf(rs), req.Key())
  {
    if rs != [] {
      KeysInserted(rs, req, Position(KeysOf(rs), req.Key(), 0));
    }
  }

  class BlockDevice {
    var current: Request?
    ghost var queue: seq<Request>

    constructor ()
      ensures Valid() && queue == []
    {
      current, queue := null, [];
    }

    /** `queue` is the list from `current` along the `next` pointers; it does not loop. */
    ghost predicate Valid()
      reads this, queue
    {
      && current == (if queue == [] then null else queue[0])
      && (forall i | 0 <= i < |queue| :: LinkedAt(i))
      && (forall i, j | 0 <= i < j < |queue| :: queue[i] != queue[j])
    }

    ghost predicate LinkedAt(i: nat)
      requires i < |queue|
      reads this, queue[i]
    {
      queue[i].next == if i + 1 < |queue| then queue[i + 1] else null
    }

    /** The list gains the request at the place `Insert` says and nothing else changes but two
        `next` pointers and the buffer's dirty mark; `started` tells whether the driver's
        request_fn is called. */
    method AddRequest(req: Request) returns (started: bool)
      requires Valid() && req !in queue
      modifies this, req`next, queue`next, if req.bh == null then {} else {req.bh}
      ensures Valid() && queue == Placed(old(queue), req)
      ensures KeysOf(queue) == Insert(KeysOf(old(queue)), req.Key())
      ensures started == (old(queue) == []) && (req.bh != null ==> !req.bh.dirt)
    {
      KeysPlaced(queue, req);
      ClearLink(req);
      if current == null {
        current := req;
        queue := [req];
        return true;
      }
      var tmp, k := FindPlace(req);
      Splice(tmp, req, k);
      started := false;
    }

    method ClearLink(req: Request)
      requires Valid() && req !in queue
      modifies req`next, if req.bh == null then {} else {req.bh}
      ensures Valid() && req.next == null && (req.bh != null ==> !req.bh.dirt)
    {
      req.next := null;
      if req.bh != null {
        req.bh.dirt := false;
      }
      assert forall i | 0 <= i < |queue| :: old(LinkedAt(i)) && queue[i] != req;
    }

    /** The loop of add_request. */
    method FindPlace(req: Request) returns (tmp: Request, ghost k: nat)
      requires Valid() && current != null
      ensures k < |queue| && tmp == queue[k] && k == Position(KeysOf(queue), req.Key(), 0)
    {
      tmp := current;
      k := 0;
      while tmp.next != null
            && !((InOrder(tmp.Key(), req.Key()) || !InOrder(tmp.Key(), tmp.next.Key()))
               && InOrder(req.Key(), tmp.next.Key()))
        invariant 0 <= k < |queue| && tmp == queue[k]
        invariant Position(KeysOf(queue), req.Key(), 0) == Position(KeysOf(queue), req.Key(), k)
        decreases |queue| - k
      {
        assert LinkedAt(k);
        tmp := tmp.next;
        k := k + 1;
      }
      assert LinkedAt(k);
    }

    /** The two assignments that link the request in after `tmp`. */
    method Splice(tmp: Request, req: Request, ghost k: nat)
      requires Valid() && req !in queue && k < |queue| && tmp == queue[k]
      modifies this`queue, req`next, tmp`next
      ensures Valid() && queue == Inserted(old(queue), req, k)
    {
      ghost var before := queue;
      assert LinkedAt(k);
      req.next := tmp.next;
      tmp.next := req;
      queue := Inserted(queue, req, k);
      forall i | 0 <= i < |queue|
        ensures LinkedAt(i)
      {
        if i < k {
          assert old(LinkedAt(i)) && queue[i] == before[i] && before[i] != tmp && queue[i + 1] == before[i + 1];
        } else if i > k + 1 {
          assert old(LinkedAt(i - 1)) && queue[i] == before[i - 1] && before[i - 1] != tmp;
          assert i < |before| ==> queue[i + 1] == before[i];
        }
      }
    }
  }
}
