/** The memory side of fork: sharing the parent's range with a child, or taking a failed
    attempt back. */
module KernelForks {
  import opened Memory
  import opened CowInvariant
  import opened CowLoops
  import opened Kernel

  /** What the child of a successful fork sees. */
  ghost predicate ChildSees(m: Mem, n: Mem, parent: nat, child: nat, k: nat) {
    if parent == 0 then k == 1 ==> ImageAt(n, 16 * child)
    else forall e | 16 * child <= e < 16 * child + k :: CopyAt(m, n, 16 * parent, 16 * child, e)
  }

  /** The child's directory entries are free and the ranges fit. */
  ghost predicate MayFork(m: Mem, parent: nat, child: nat, limit: nat) {
    && parent < 64 && 1 <= child < 64 && parent != child
    && 0 < limit <= 0x400_0000 && (parent == 0 ==> DirCount(limit) == 1)
    && (forall e | 16 * child <= e < 16 * child + DirCount(limit) :: !Pde(m, e).present)
  }

  /** The outcome of copy_page_tables on the ranges of two tasks. */
  lemma ShareRange(m: Mem, owned: set<nat>, parent: nat, child: nat, limit: nat) returns (r: Copy)
    requires Inv(m, owned) && MayFork(m, parent, child, limit)
    ensures CopyPageTables(m, Base(parent), Base(child), limit) == Done(r) && !r.Exists? && Inv(r.mem, owned)
    ensures Forked(m, r.mem, 16 * child, 16 * child + DirCount(limit))
    ensures r.Copied? ==> ChildSees(m, r.mem, parent, child, DirCount(limit))
  {
    var f, t, k := 16 * parent, 16 * child, DirCount(limit);
    assert DirOf(Base(parent)) == f && DirOf(Base(child)) == t;
    if parent == 0 {
      var q := CopyImageDirKeeps(m, owned, t);
      r := q;
      assert CopyDirs(m, 0, t, 1, 160) == r;
    } else {
      r := CopyDirsKeep(m, owned, f, t, k);
    }
  }

  lemma CopyMemKeeps(m: Mem, owned: set<nat>, parent: nat, child: nat, limit: nat) returns (n: Mem, ok: bool)
    requires Inv(m, owned) && MayFork(m, parent, child, limit)
    ensures CopyMem(m, parent, child, limit) == Done((n, ok)) && Inv(n, owned)
    ensures Forked(m, n, 16 * child, 16 * child + DirCount(limit))
    ensures ok ==> ChildSees(m, n, parent, child, DirCount(limit))
    ensures !ok ==> Undone(m, n, 16 * child, DirCount(limit)) && n.count == m.count
  {
    var r := ShareRange(m, owned, parent, child, limit);
    if r.Copied? {
      n, ok := r.mem, true;
    } else {
      var t, k := 16 * child, DirCount(limit);
      UndoFork(m, r.mem, owned, t, k);
      assert DirOf(Base(child)) == t;
      n, ok := FreeDirs(r.mem, t, k).value, false;
    }
  }
}
