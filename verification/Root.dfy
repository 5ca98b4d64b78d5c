/** The storage directory as the driver sees it: every system call may succeed, fail, or be the last one
    before the process dies. The contracts leave the choice open, so what is proved about a caller
    holds for every schedule of failures and crashes. */
module RootDirectory {
  import opened Paths
  import opened Disk
  import opened Journal
  import opened Recovery

  datatype Error = NotFound | AlreadyExists | NotDir | InvalidPath | Unfinished | Invalid | IO

  /** Crashed means that the process is gone: nothing of the caller runs after it. */
  datatype Outcome = Done | Failed(error: Error) | Crashed

  class Root {
    var tree: Tree
    /** Whether removing the transaction directory counts as one step. */
    const atomicCleanup: bool
    /** Whether every system call succeeds that can. */
    const reliable: bool

    /** How the next system call ends. */
    method Fate() returns (r: Outcome)
      ensures reliable ==> r.Done?
      ensures r.Failed? ==> r.error == IO
    {
      if reliable { r := Done; } else if * { r := Done; } else if * { r := Failed(IO); } else { r := Crashed; }
    }

    method Lstat(p: Path) returns (r: Outcome, node: Option<Node>)
      ensures r.Done? ==> node == if p in tree then Some(tree[p]) else None
      ensures reliable ==> r.Done?
      ensures r.Failed? ==> r.error == IO
    {
      node := if p in tree then Some(tree[p]) else None;
      r := Fate();
    }

    /** Fsync of a directory or of the staged files; writes are persisted in order, so it has no effect. */
    method Sync() returns (r: Outcome)
      ensures reliable ==> r.Done?
      ensures r.Failed? ==> r.error == IO
    {
      r := Fate();
    }

    method Rename(from: Path, to: Path) returns (r: Outcome)
      modifies this
      ensures r.Done? ==> CanRename(old(tree), from, to) && tree == Moved(old(tree), from, to)
      ensures reliable && CanRename(old(tree), from, to) ==> r.Done?
      ensures !r.Done? ==> tree == old(tree)
      ensures r.Failed? ==> r.error == IO
    {
      r := Fate();
      if r.Done? {
        if CanRename(tree, from, to) {
          tree := ComputeMoved(tree, from, to);
        } else {
          r := Failed(IO);
        }
      }
    }

    /** A new file, written and synced; an interrupted write leaves a torn file or none. */
    method WriteSynced(p: Path, c: Content) returns (r: Outcome)
      requires p != []
      modifies this
      ensures r.Done? ==> p !in old(tree) && IsDir(old(tree), Parent(p)) && tree == old(tree)[p := File(c)]
      ensures reliable && p !in old(tree) && IsDir(old(tree), Parent(p)) ==> r.Done?
      ensures !r.Done? && tree != old(tree) ==>
        p !in old(tree) && IsDir(old(tree), Parent(p)) && tree == old(tree)[p := File(Torn)]
      ensures r.Failed? ==> r.error == IO
    {
      var possible := p !in tree && IsDir(tree, Parent(p));
      r := Fate();
      if !possible {
        if r.Done? { r := Failed(IO); }
      } else if r.Done? {
        tree := tree[p := File(c)];
      } else if * {
        tree := tree[p := File(Torn)];
      }
    }

    /** A file created or truncated, and written. */
    method WriteFile(p: Path, c: Content) returns (r: Outcome)
      requires p != []
      modifies this
      ensures r.Done? ==> Writable(old(tree), p) && tree == old(tree)[p := File(c)]
      ensures reliable && Writable(old(tree), p) ==> r.Done?
      ensures !r.Done? && tree != old(tree) ==> Writable(old(tree), p) && tree == old(tree)[p := File(Torn)]
      ensures r.Failed? ==> r.error == IO
    {
      var possible := Writable(tree, p);
      r := Fate();
      if !possible {
        if r.Done? { r := Failed(IO); }
      } else if r.Done? {
        tree := tree[p := File(c)];
      } else if * {
        tree := tree[p := File(Torn)];
      }
    }

    method Mkdir(p: Path) returns (r: Outcome)
      requires p != []
      modifies this
      ensures r.Done? ==> p !in old(tree) && IsDir(old(tree), Parent(p)) && tree == old(tree)[p := Dir]
      ensures reliable && p !in old(tree) && IsDir(old(tree), Parent(p)) ==> r.Done?
      ensures reliable ==> !r.Crashed?
      ensures !r.Done? ==> tree == old(tree)
      ensures r.Failed? ==> r.error == IO
    {
      r := Fate();
      if r.Done? {
        if p in tree || !IsDir(tree, Parent(p)) {
          r := Failed(IO);
        } else {
          tree := tree[p := Dir];
        }
      }
    }

    /** RemoveAll of the transaction directory: entries go in any order, children before parents. */
    method RemoveTransaction() returns (r: Outcome)
      requires Closed(tree)
      modifies this
      ensures r.Done? ==> tree == User(old(tree))
      ensures reliable ==> r.Done?
      ensures PartlyCleaned(old(tree), tree)
      ensures atomicCleanup ==> tree == old(tree) || tree == User(old(tree))
      ensures r.Failed? ==> r.error == IO
    {
      UserIsPartlyCleaned(tree);
      if atomicCleanup {
        r := Fate();
        if r.Done? { tree := User(tree); }
        return;
      }
      r := Done;
      while r.Done? && TX in tree
        invariant PartlyCleaned(old(tree), tree) && (r.Failed? ==> r.error == IO) && (reliable ==> r.Done?)
        decreases |tree|, r.Done?
      {
        LeafBelow(tree, TX);
        var p :| p in tree && TX <= p && IsLeaf(tree, p);
        LeafRemoved(old(tree), tree, p);
        r := Fate();
        if r.Done? { tree := tree - {p}; }
      }
      if r.Done? {
        OnlyUserLeft(old(tree), tree);
      }
    }

    /** recoverTransaction. Whatever happens, recovery still leads to the same state u; when it completes,
        that state is reached; and it completes unless a system call fails. */
    method RecoverTransaction(ghost u: Tree) returns (r: Outcome)
      requires Recovers(tree, u, atomicCleanup)
      modifies this
      ensures Recovers(tree, u, atomicCleanup)
      ensures r.Done? ==> tree == u && TX !in tree
      ensures reliable ==> r.Done?
      ensures r.Failed? ==> r.error == IO
    {
      ghost var t0 := tree;
      RecoversClosed(tree, u, atomicCleanup);
      var node, index;
      r, node := Lstat(JOURNAL);
      if !r.Done? { return; }
      if node.None? {
        RecoversToOne(tree, u, atomicCleanup);
        r := RemoveTransaction();
        CleaningKeepsOutcome(t0, tree, u, atomicCleanup);
        return;
      }
      var moves := node.value.content.moves;
      r, index := Lstat(TX_INDEX);
      if !r.Done? { return; }
      if index.Some? {
        assert Scanning(tree, u, atomicCleanup, moves);
        r := UndoMoves(moves, u);
        if !r.Done? { return; }
      }
      r := Sync();
      if !r.Done? { return; }
      ghost var t1 := tree;
      RecoversToOne(tree, u, atomicCleanup);
      r := RemoveTransaction();
      CleaningKeepsOutcome(t1, tree, u, atomicCleanup);
    }

    /** The backward scan over the journal. */
    method UndoMoves(moves: seq<Move>, ghost u: Tree) returns (r: Outcome)
      requires Scanning(tree, u, atomicCleanup, moves)
      modifies this
      ensures Scanning(tree, u, atomicCleanup, moves)
      ensures r.Done? ==> tree == Undo(old(tree), moves, 0, |moves|)
      ensures r.Done? ==> Undo(tree, moves, 0, |moves|) == tree
      ensures reliable ==> r.Done?
      ensures r.Failed? ==> r.error == IO
    {
      ghost var t0 := tree;
      var i := |moves|;
      r := Done;
      while i > 0
        invariant 0 <= i <= |moves| && r.Done?
        invariant tree == Undo(t0, moves, i, |moves|)
      {
        ScanStays(t0, u, atomicCleanup, moves, i);
        i := i - 1;
        ScanStays(t0, u, atomicCleanup, moves, i);
        ScanCanUndo(t0, u, atomicCleanup, moves, i);
        UndoNext(t0, moves, i, |moves|);
        r := UndoMove(moves[i]);
        if !r.Done? { return; }
      }
      ScanStays(t0, u, atomicCleanup, moves, 0);
      ScanFindsNothing(t0, u, atomicCleanup, moves);
    }

    /** One step of the scan decides from what exists whether the move has run. */
    method UndoMove(m: Move) returns (r: Outcome)
      modifies this
      ensures r.Failed? ==> r.error == IO || !IsInternalPath(m.from) || !IsInternalPath(m.to)
      ensures reliable && CanUndo(old(tree), m) ==> r.Done?
      ensures !IsInternalPath(m.from) || !IsInternalPath(m.to) ==> r == Failed(InvalidPath) && tree == old(tree)
      ensures r.Done? ==> tree == UndoStep(old(tree), m)
      ensures tree == old(tree) || tree == UndoStep(old(tree), m)
      ensures r.Failed? ==> r.error == IO || r.error == InvalidPath
    {
      if !IsInternalPath(m.from) || !IsInternalPath(m.to) {
        return Failed(InvalidPath);
      }
      var from, to;
      r, from := Lstat(m.from);
      if !r.Done? { return; }
      r, to := Lstat(m.to);
      if r.Crashed? { return; }
      if from.Some? { return Done; }
      if !r.Done? || to.None? { return; }
      r := Rename(m.to, m.from);
      if !r.Done? { return; }
      r := Sync();
      if !r.Done? { return; }
      r := Sync();
    }
  }

  /** Recovery accepts the move, and if it has to be reversed it can be. */
  predicate CanUndo(t: Tree, m: Move) {
    IsInternalPath(m.from) && IsInternalPath(m.to) && (NeedsUndo(t, m) ==> CanRename(t, m.to, m.from))
  }

  predicate Writable(t: Tree, p: Path)
    requires p != []
  {
    if p in t then t[p].File? else IsDir(t, Parent(p))
  }

  predicate IsLeaf(t: Tree, p: Path) {
    forall q :: q in t && p <= q ==> q == p
  }

  lemma LeafBelow(t: Tree, p: Path)
    requires p in t
    ensures exists q :: q in t && p <= q && IsLeaf(t, q)
    decreases |(set q | q in t && p <= q)|
  {
    if !IsLeaf(t, p) {
      var q :| q in t && p <= q && q != p;
      var above, below := set x | x in t && p <= x, set x | x in t && q <= x;
      assert p in above && p !in below && below <= above;
      SmallerSet(below, above, p);
      LeafBelow(t, q);
    }
  }

  lemma SmallerSet<T>(a: set<T>, b: set<T>, x: T)
    requires a <= b && x in b && x !in a
    ensures |a| < |b|
  {
    assert b == a + (b - a);
  }

  lemma LeafRemoved(t: Tree, t': Tree, p: Path)
    requires PartlyCleaned(t, t') && p in t' && TX <= p && IsLeaf(t', p)
    ensures PartlyCleaned(t, t' - {p})
    ensures |t' - {p}| < |t'|
  {
    forall q ensures HasParent(t' - {p}, q) {
      assert HasParent(t', q);
      assert q != [] ==> Parent(q) <= q && Parent(q) != q;
    }
    assert (t' - {p}).Keys == t'.Keys - {p};
  }

  lemma OnlyUserLeft(t: Tree, t': Tree)
    requires PartlyCleaned(t, t') && TX !in t'
    ensures t' == User(t)
  {
    forall q ensures AgreeAt(t', User(t), q) {
      if q in t' && TX <= q {
        AncestorIn(t', TX, q);
      }
    }
    AgreeEverywhere(t', User(t));
  }

  lemma UserIsPartlyCleaned(t: Tree)
    requires Closed(t)
    ensures PartlyCleaned(t, User(t))
  {
    forall q ensures HasParent(User(t), q) {
      assert HasParent(t, q);
      assert q != [] ==> Parent(q) <= q;
    }
  }

  lemma RecoversClosed(t: Tree, u: Tree, atomic: bool)
    requires Recovers(t, u, atomic)
    ensures Closed(t)
    ensures JOURNAL in t ==> IsJournal(t)
  {
    if !Settled(t, u) {
      var t0, moves, k :| Published(t, u, t0, moves, k) && (atomic || AllHarmless(t0, moves));
      JournalStays(t, u, t0, moves, k);
    }
  }

  lemma {:induction false} UndoNext(t: Tree, moves: seq<Move>, i: nat, n: nat)
    requires i < n <= |moves|
    ensures Undo(t, moves, i, n) == UndoStep(Undo(t, moves, i + 1, n), moves[i])
  {
    UndoSplit(t, moves, i, i + 1, n);
  }

  /** Recovery is in its backward scan. */
  ghost predicate Scanning(t: Tree, u: Tree, atomic: bool, moves: seq<Move>) {
    Recovers(t, u, atomic) && Closed(t) && IsJournal(t) && JournalOf(t) == moves && TX_INDEX in t
  }

  lemma ScanStays(t: Tree, u: Tree, atomic: bool, moves: seq<Move>, lo: nat)
    requires Scanning(t, u, atomic, moves) && lo <= |moves|
    ensures Scanning(Undo(t, moves, lo, |moves|), u, atomic, moves)
  {
    var n := |moves|;
    InterruptedScan(t, u, atomic, lo);
    RecoversClosed(Undo(t, moves, lo, n), u, atomic);
    if Settled(t, u) {
      HarmlessScanIsIdle(t, moves, lo, n);
    } else {
      var t0, ms, k :| Published(t, u, t0, ms, k) && (atomic || AllHarmless(t0, ms));
      JournalStays(t, u, t0, ms, k);
      RollbackFromEveryPrefix(t0, ms, k, lo, n);
      JournalStays(After(t0, ms, Min(k, lo)), u, t0, ms, Min(k, lo));
    }
  }

  /** Every step of the scan can be carried out. */
  lemma ScanCanUndo(t: Tree, u: Tree, atomic: bool, moves: seq<Move>, i: nat)
    requires Scanning(t, u, atomic, moves) && i < |moves|
    ensures CanUndo(Undo(t, moves, i + 1, |moves|), moves[i])
  {
    var n := |moves|;
    var s := Undo(t, moves, i + 1, n);
    if Settled(t, u) {
      HarmlessScanIsIdle(t, moves, i + 1, n);
      assert Harmless(t, moves[i]);
    } else {
      var t0, ms, k :| Published(t, u, t0, ms, k) && (atomic || AllHarmless(t0, ms));
      JournalStays(t, u, t0, ms, k);
      RollbackFromEveryPrefix(t0, ms, k, i + 1, n);
      if i < k { UndoReverses(t0, ms, i); } else { SourceWaits(t0, ms, k, i); }
    }
  }

  /** A completed scan has nothing left to undo. */
  lemma ScanFindsNothing(t: Tree, u: Tree, atomic: bool, moves: seq<Move>)
    requires Scanning(t, u, atomic, moves)
    ensures var s := Undo(t, moves, 0, |moves|); Undo(s, moves, 0, |moves|) == s
  {
    var n := |moves|;
    if Settled(t, u) {
      HarmlessScanIsIdle(t, moves, 0, n);
    } else {
      var t0, ms, k :| Published(t, u, t0, ms, k) && (atomic || AllHarmless(t0, ms));
      JournalStays(t, u, t0, ms, k);
      RollbackFromEveryPrefix(t0, ms, k, 0, n);
      RollbackFromEveryPrefix(t0, ms, 0, 0, n);
    }
  }
}
