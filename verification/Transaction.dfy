/** Publishing and running a journal: the disk side of LocalStorage.transaction. */
module Transactions {
  import opened Paths
  import opened Disk
  import opened Journal
  import opened Recovery
  import opened Plans
  import opened RootDirectory

  /** Entries may be staged, but no journal is published. */
  ghost predicate Staging(t: Tree, pre: Tree) {
    && Closed(t) && User(t) == pre && IsDir(t, TX)
    && JOURNAL !in t && TX_INDEX !in t && JOURNAL_NEW !in t
  }

  /** A list of moves that may be journalled. */
  ghost predicate Journalable(t: Tree, moves: seq<Move>, atomic: bool) {
    && Static(t, moves) && AllInternal(moves) && SparesControlFiles(moves)
    && (forall i :: 0 <= i < |moves| ==> moves[i].to != JOURNAL_NEW)
    && (atomic || AllHarmless(t, moves))
  }

  function WithControl(t: Tree, metas: seq<Meta>, moves: seq<Move>): Tree {
    t[TX_INDEX := File(Index(metas))][JOURNAL := File(Journal(moves))]
  }

  /** The user's tree once every move and the index have been renamed into place. */
  ghost function CommittedTree(t: Tree, metas: seq<Meta>, moves: seq<Move>): Tree {
    User(After(WithControl(t, metas, moves), moves, |moves|))[INDEX := File(Index(metas))]
  }

  lemma StagingSettled(t: Tree, pre: Tree)
    requires Staging(t, pre)
    ensures Settled(t, pre)
  {
  }

  lemma AddedStaging(t: Tree, pre: Tree, p: Path, n: Node)
    requires Closed(t) && User(t) == pre && p != [] && p !in t && IsDir(t, Parent(p)) && TX <= p
    ensures Closed(t[p := n]) && User(t[p := n]) == pre
  {
    AddedClosed(t, p, n);
    assert User(t[p := n]) == User(t);
  }

  lemma HarmlessWithControlFile(t: Tree, moves: seq<Move>, p: Path, n: Node)
    requires AllHarmless(t, moves) && forall i :: 0 <= i < |moves| ==> moves[i].to != p
    ensures AllHarmless(t[p := n], moves)
  {
    forall i | 0 <= i < |moves| ensures Harmless(t[p := n], moves[i]) {
      assert Harmless(t, moves[i]);
    }
  }

  lemma WithControlPublished(t: Tree, pre: Tree, metas: seq<Meta>, moves: seq<Move>, atomic: bool)
    requires Staging(t, pre) && Journalable(t, moves, atomic)
    ensures
      var t0 := WithControl(t, metas, moves);
      Published(t0, pre, t0, moves, 0) && (atomic || AllHarmless(t0, moves)) && Closed(t0)
  {
    var a, b := File(Index(metas)), File(Journal(moves));
    var t1, t0 := t[TX_INDEX := a], WithControl(t, metas, moves);
    forall i | 0 <= i < |moves| ensures moves[i].to != TX_INDEX && moves[i].to != JOURNAL {
      assert Spares(moves[i], TX_INDEX) && Spares(moves[i], JOURNAL);
    }
    ControlPaths();
    StaticWithControlFile(t, moves, TX_INDEX, a);
    StaticWithControlFile(t1, moves, JOURNAL, b);
    StaticIsPlan(t0, moves);
    if !atomic {
      HarmlessWithControlFile(t, moves, TX_INDEX, a);
      HarmlessWithControlFile(t1, moves, JOURNAL, b);
    }
    assert User(t0) == User(t);
    assert After(t0, moves, 0) == t0;
  }

  lemma PublishedRecovers(t: Tree, u: Tree, t0: Tree, moves: seq<Move>, k: nat, atomic: bool)
    requires Published(t, u, t0, moves, k) && (atomic || AllHarmless(t0, moves))
    ensures Recovers(t, u, atomic)
  {
  }

  lemma NextPublished(t: Tree, u: Tree, t0: Tree, moves: seq<Move>, k: nat)
    requires Published(t, u, t0, moves, k) && k < |moves|
    ensures Published(Moved(t, moves[k].from, moves[k].to), u, t0, moves, k + 1)
  {
  }

  /** Renaming the index into place is the commit: from then on recovery leads to the new tree. */
  lemma CommitSettles(t: Tree, u: Tree, t0: Tree, moves: seq<Move>)
    requires Published(t, u, t0, moves, |moves|) && CanRename(t, TX_INDEX, INDEX) && t[TX_INDEX].File?
    ensures Settled(Moved(t, TX_INDEX, INDEX), User(t)[INDEX := t[TX_INDEX]])
  {
    JournalStays(t, u, t0, moves, |moves|);
    FileMoved(t, TX_INDEX, INDEX);
    TargetNotAbove(t, TX_INDEX, INDEX);
    MovedClosed(t, TX_INDEX, INDEX);
    ControlPaths();
    var c := Moved(t, TX_INDEX, INDEX);
    assert c[JOURNAL] == t[JOURNAL];
    assert User(c) == User(t)[INDEX := t[TX_INDEX]];
  }

  /** After the moves the new index can be renamed over the old one. */
  lemma IndexReplaceable(t0: Tree, moves: seq<Move>, t: Tree, pre: Tree)
    requires Published(t, pre, t0, moves, |moves|) && TX_INDEX in t && t[TX_INDEX].File?
    ensures (INDEX in pre ==> pre[INDEX].File?) ==> CanRename(t, TX_INDEX, INDEX)
  {
    ControlPaths();
    JournalStays(t, pre, t0, moves, |moves|);
    SparedAfter(t0, moves, |moves|, INDEX);
    assert INDEX in t0 <==> INDEX in pre;
    if INDEX in t && t[INDEX].File? {
      forall q | q in t && INDEX <= q ensures q == INDEX { FileIsLeaf(t, INDEX, q); }
    }
  }

  lemma JournalNames()
    ensures !(JOURNAL_NEW <= JOURNAL) && JOURNAL_NEW != TX_INDEX && JOURNAL != TX_INDEX && JOURNAL_NEW != []
    ensures TX <= TX_INDEX && TX <= JOURNAL_NEW && TX <= JOURNAL && TX_INDEX != [] && JOURNAL != []
  {
    assert |JOURNAL_NEW[1]| != |JOURNAL[1]| && JOURNAL[1][0] != TX_INDEX[1][0] && |JOURNAL_NEW[1]| != |TX_INDEX[1]|;
  }

  /** The index and the journal are written, and the journal is renamed into place. */
  method PublishJournal(root: Root, moves: seq<Move>, metas: seq<Meta>, ghost pre: Tree) returns (r: Outcome)
    requires Staging(root.tree, pre) && Journalable(root.tree, moves, root.atomicCleanup)
    modifies root
    ensures r.Done? ==> root.tree == WithControl(old(root.tree), metas, moves)
    ensures !r.Done? ==> Unpublished(root.tree, pre)
    ensures root.reliable ==> r.Done?
    ensures r.Failed? ==> r.error == IO
  {
    hide TX, JOURNAL, JOURNAL_NEW, TX_INDEX, Closed, Journalable, User;
    ControlPaths();
    JournalNames();
    ghost var t := root.tree;
    r := root.WriteSynced(TX_INDEX, Index(metas));
    AddedStaging(t, pre, TX_INDEX, File(Torn));
    AddedStaging(t, pre, TX_INDEX, File(Index(metas)));
    if !r.Done? { return; }
    ghost var t1 := root.tree;
    r := root.WriteSynced(JOURNAL_NEW, Journal(moves));
    AddedStaging(t1, pre, JOURNAL_NEW, File(Torn));
    AddedStaging(t1, pre, JOURNAL_NEW, File(Journal(moves)));
    if !r.Done? { return; }
    r := root.Rename(JOURNAL_NEW, JOURNAL);
    if r.Done? { FileMoved(t1[JOURNAL_NEW := File(Journal(moves))], JOURNAL_NEW, JOURNAL); }
  }

  /** The journal is not in place, whatever else is in the transaction directory. */
  ghost predicate Unpublished(t: Tree, pre: Tree) {
    Closed(t) && User(t) == pre && JOURNAL !in t
  }

  /** What the journal and the renames make of a staged transaction. */
  method PublishAndRun(root: Root, moves: seq<Move>, metas: seq<Meta>, ghost pre: Tree)
    returns (r: Outcome, committed: bool)
    requires Staging(root.tree, pre) && Journalable(root.tree, moves, root.atomicCleanup)
    modifies root
    ensures !committed ==> Recovers(root.tree, pre, root.atomicCleanup)
    ensures committed ==> Recovers(root.tree, CommittedTree(old(root.tree), metas, moves), root.atomicCleanup)
    ensures r.Done? ==> committed
    ensures root.reliable && (INDEX in pre ==> pre[INDEX].File?) ==> r.Done?
    ensures r.Failed? ==> r.error == IO
  {
    ghost var t := root.tree;
    ghost var t0 := WithControl(t, metas, moves);
    committed := false;
    r := PublishJournal(root, moves, metas, pre);
    if !r.Done? { return; }
    WithControlPublished(t, pre, metas, moves, root.atomicCleanup);
    r := RunMoves(root, moves, t0, pre);
    if !r.Done? { return; }
    JournalNames();
    SparedAfter(t0, moves, |moves|, TX_INDEX);
    assert root.tree[TX_INDEX] == File(Index(metas));
    ghost var t2 := root.tree;
    IndexReplaceable(t0, moves, t2, pre);
    r := root.Rename(TX_INDEX, INDEX);
    if !r.Done? { return; }
    CommitSettles(t2, pre, t0, moves);
    committed := true;
    r := root.Sync();
  }

  method RunMoves(root: Root, moves: seq<Move>, ghost t0: Tree, ghost pre: Tree) returns (r: Outcome)
    requires Published(root.tree, pre, t0, moves, 0) && (root.atomicCleanup || AllHarmless(t0, moves))
    modifies root
    ensures Recovers(root.tree, pre, root.atomicCleanup)
    ensures r.Done? ==> Published(root.tree, pre, t0, moves, |moves|)
    ensures root.reliable ==> r.Done?
    ensures r.Failed? ==> r.error == IO
  {
    PublishedRecovers(root.tree, pre, t0, moves, 0, root.atomicCleanup);
    r := root.Sync();
    if !r.Done? { return; }
    r := root.Sync();
    if !r.Done? { return; }
    for i := 0 to |moves|
      invariant r.Done? && Published(root.tree, pre, t0, moves, i)
      invariant Recovers(root.tree, pre, root.atomicCleanup)
    {
      NextPublished(root.tree, pre, t0, moves, i);
      assert FreeAt(t0, moves, i);
      r := root.Rename(moves[i].from, moves[i].to);
      if !r.Done? { return; }
      PublishedRecovers(root.tree, pre, t0, moves, i + 1, root.atomicCleanup);
      r := root.Sync();
      if !r.Done? { return; }
      r := root.Sync();
      if !r.Done? { return; }
    }
  }
}
